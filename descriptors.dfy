/**
 * The two private descriptors that `bat::put_bat` of freesat.cpp decodes
 * byte by byte: the region descriptor (tag 0xd4, in the bouquet loop of the
 * Bouquet Association Table) and the channel-number descriptor (tag 0xd3, in
 * the transport-stream loop). Both are concatenations of records; a record
 * that does not fit in what is left ends the parse without an error.
 *
 * The grammar is given by pure functions (`RegionRecords`, `ServiceBlocks`),
 * the effect on the bouquet's maps by folds (`ApplyRegions`,
 * `AppendServices`), and the pointer walks of the source by the methods
 * `DecodeRegionDescriptor` and `DecodeChannelDescriptor`, proved against them.
 */
module BatDescriptors {
  import opened Common

  const RegionTag: uint8 := 0xd4
  const ChannelNumberTag: uint8 := 0xd3

  /** Header bytes of a region record: number (2), three skipped bytes, name length (1). */
  const RegionHeaderSize: nat := 6
  /** Header bytes of a service block: service id (2), EPG flags (2), length (1). */
  const ServiceHeaderSize: nat := 5

  datatype RegionRecord = RegionRecord(number: uint16, name: seq<uint8>)

  /** A channel number (12 bits) and the region it applies in. */
  datatype ChannelNumber = ChannelNumber(number: uint16, region: uint16)

  /** The channel numbers that one block of a channel-number descriptor gives a service. */
  datatype ServiceBlock = ServiceBlock(sid: uint16, channels: seq<ChannelNumber>)

  // ---------------------------------------------------------------------------
  // Region descriptor (0xd4)
  // ---------------------------------------------------------------------------

  /** The complete region records at the front of `s`, in order. */
  function RegionRecords(s: seq<uint8>): (r: seq<RegionRecord>)
    ensures forall k | 0 <= k < |r| :: |r[k].name| < 0x100
    decreases |s|
  {
    if |s| < RegionHeaderSize then []
    else
      var length := s[5] as nat;
      if |s| < RegionHeaderSize + length then []
      else
        [RegionRecord(BigEndian16(s[0], s[1]), s[6..6 + length])] + RegionRecords(s[6 + length..])
  }

  /** A region record as it stands in a payload, with the three bytes the parser skips. */
  datatype RegionBytes = RegionBytes(rec: RegionRecord, reserved: seq<uint8>)

  predicate RegionEncodable(r: RegionBytes)
  {
    |r.reserved| == 3 && |r.rec.name| < 0x100
  }

  /** The bytes of one region record: number, the three skipped bytes, length, name. */
  function EncodeRegion(r: RegionBytes): (b: seq<uint8>)
    requires RegionEncodable(r)
    ensures |b| == RegionHeaderSize + |r.rec.name|
  {
    [r.rec.number / 0x100, r.rec.number % 0x100] + r.reserved + [|r.rec.name|] + r.rec.name
  }

  predicate RegionsEncodable(rs: seq<RegionBytes>)
  {
    forall k | 0 <= k < |rs| :: RegionEncodable(rs[k])
  }

  function EncodeRegions(rs: seq<RegionBytes>): seq<uint8>
    requires RegionsEncodable(rs)
  {
    if rs == [] then [] else EncodeRegion(rs[0]) + EncodeRegions(rs[1..])
  }

  /** The records the encoded regions carry, without their skipped bytes. */
  function RecordsOf(rs: seq<RegionBytes>): (recs: seq<RegionRecord>)
    ensures |recs| == |rs|
  {
    if rs == [] then [] else [rs[0].rec] + RecordsOf(rs[1..])
  }

  /** One encoded record at the front decodes to itself, whatever its skipped bytes; the parse resumes after it. */
  lemma RegionRecordsStep(r: RegionBytes, rest: seq<uint8>)
    requires RegionEncodable(r)
    ensures RegionRecords(EncodeRegion(r) + rest) == [r.rec] + RegionRecords(rest)
  {
    var s := EncodeRegion(r) + rest;
    var length := |r.rec.name|;
    assert s[5] == length;
    assert s[6..6 + length] == r.rec.name;
    assert s[6 + length..] == rest;
    assert BigEndian16(s[0], s[1]) == r.rec.number;
  }

  /**
   * Each record takes 6 + L bytes and the parse resumes right after it:
   * decoding encoded records returns them, whatever their skipped bytes hold,
   * followed by whatever the bytes after them decode to.
   */
  lemma {:induction false} RegionRecordsRoundTrip(rs: seq<RegionBytes>, tail: seq<uint8>)
    requires RegionsEncodable(rs)
    ensures RegionRecords(EncodeRegions(rs) + tail) == RecordsOf(rs) + RegionRecords(tail)
    decreases |rs|
  {
    if rs == [] {
      AppendAssoc(tail, [], []);
      AppendAssoc(RegionRecords(tail), [], []);
    } else {
      var r, more := rs[0], rs[1..];
      AppendAssoc(EncodeRegion(r), EncodeRegions(more), tail);
      RegionRecordsStep(r, EncodeRegions(more) + tail);
      RegionRecordsRoundTrip(more, tail);
      AppendAssoc([r.rec], RecordsOf(more), RegionRecords(tail));
    }
  }

  /**
   * Truncation tolerance: a trailing record cut short anywhere is dropped,
   * and every complete record before it is kept.
   */
  lemma TruncatedRegionDropped(rs: seq<RegionBytes>, last: RegionBytes, k: nat)
    requires RegionsEncodable(rs) && RegionEncodable(last)
    requires k < |EncodeRegion(last)|
    ensures RegionRecords(EncodeRegions(rs) + EncodeRegion(last)[..k]) == RecordsOf(rs)
  {
    var cut := EncodeRegion(last)[..k];
    RegionRecordsRoundTrip(rs, cut);
    if k >= RegionHeaderSize {
      assert cut[5] == |last.rec.name|;
    }
    assert RegionRecords(cut) == [];
  }

  /** The region numbers the records name. */
  function Numbers(recs: seq<RegionRecord>): (ns: set<uint16>)
    ensures forall k | 0 <= k < |recs| :: recs[k].number in ns
  {
    if recs == [] then {} else {recs[0].number} + Numbers(recs[1..])
  }

  /** The regions map after inserting `recs` in order; a later record overwrites. */
  function ApplyRegions(regions: map<uint16, seq<uint8>>, recs: seq<RegionRecord>): (r: map<uint16, seq<uint8>>)
    ensures r.Keys == regions.Keys + Numbers(recs)
    decreases |recs|
  {
    if recs == [] then regions
    else ApplyRegions(regions[recs[0].number := recs[0].name], recs[1..])
  }

  /** Inserting two runs of records is inserting their concatenation. */
  lemma {:induction false} ApplyRegionsConcat(regions: map<uint16, seq<uint8>>, a: seq<RegionRecord>, b: seq<RegionRecord>)
    ensures ApplyRegions(ApplyRegions(regions, a), b) == ApplyRegions(regions, a + b)
    decreases |a|
  {
    if a == [] {
      AppendAssoc(b, [], []);
    } else {
      ApplyRegionsConcat(regions[a[0].number := a[0].name], a[1..], b);
      ConsAppend(a, b);
    }
  }

  /** A region that no record names keeps its old name. */
  lemma {:induction false} ApplyRegionsKeeps(regions: map<uint16, seq<uint8>>, recs: seq<RegionRecord>, number: uint16)
    requires number in regions
    requires forall k | 0 <= k < |recs| :: recs[k].number != number
    ensures ApplyRegions(regions, recs)[number] == regions[number]
    decreases |recs|
  {
    if recs != [] {
      ApplyRegionsKeeps(regions[recs[0].number := recs[0].name], recs[1..], number);
    }
  }

  /** The last record with a given number decides that region's name. */
  lemma {:induction false} LastRegionRecordWins(regions: map<uint16, seq<uint8>>, recs: seq<RegionRecord>, i: nat)
    requires i < |recs|
    requires forall k | i < k < |recs| :: recs[k].number != recs[i].number
    ensures ApplyRegions(regions, recs)[recs[i].number] == recs[i].name
    decreases |recs|
  {
    var next := regions[recs[0].number := recs[0].name];
    if i == 0 {
      ApplyRegionsKeeps(next, recs[1..], recs[0].number);
    } else {
      LastRegionRecordWins(next, recs[1..], i - 1);
    }
  }

  /** The record that starts at `it`, when its name fits, and what follows it. */
  lemma RegionRecordsAt(payload: seq<uint8>, it: nat)
    requires it + RegionHeaderSize <= |payload|
    requires it + RegionHeaderSize + payload[it + 5] as nat <= |payload|
    ensures var length := payload[it + 5] as nat;
      RegionRecords(payload[it..])
      == [RegionRecord(BigEndian16(payload[it], payload[it + 1]), payload[it + 6..it + 6 + length])]
         + RegionRecords(payload[it + 6 + length..])
  {
    var s := payload[it..];
    var length := payload[it + 5] as nat;
    assert s[5] == payload[it + 5];
    assert s[6..6 + length] == payload[it + 6..it + 6 + length];
    assert s[6 + length..] == payload[it + 6 + length..];
  }

  lemma ApplyRegionsCons(regions: map<uint16, seq<uint8>>, rec: RegionRecord, rest: seq<RegionRecord>)
    ensures ApplyRegions(regions, [rec] + rest) == ApplyRegions(regions[rec.number := rec.name], rest)
  {
    assert ([rec] + rest)[1..] == rest;
  }

  /**
   * The walk of the source over a region descriptor's payload with a cursor
   * `it`: records are inserted into `regions` until one does not fit.
   */
  method DecodeRegionDescriptor(payload: seq<uint8>, regions: map<uint16, seq<uint8>>)
    returns (r: map<uint16, seq<uint8>>)
    ensures r == ApplyRegions(regions, RegionRecords(payload))
  {
    r := regions;
    var it := 0;
    assert payload[0..] == payload;
    while |payload| - it >= RegionHeaderSize
      invariant 0 <= it <= |payload|
      invariant ApplyRegions(r, RegionRecords(payload[it..])) == ApplyRegions(regions, RegionRecords(payload))
    {
      var number := BigEndian16(payload[it], payload[it + 1]);
      var length := payload[it + 5] as nat;
      if |payload| - it < RegionHeaderSize + length {
        assert RegionRecords(payload[it..]) == [];
        break;
      }
      RegionRecordsAt(payload, it);
      ApplyRegionsCons(r, RegionRecord(number, payload[it + 6..it + 6 + length]), RegionRecords(payload[it + 6 + length..]));
      r := r[number := payload[it + 6..it + 6 + length]];
      it := it + RegionHeaderSize + length;
    }
  }

  // ---------------------------------------------------------------------------
  // Channel-number descriptor (0xd3)
  // ---------------------------------------------------------------------------

  /**
   * The four-byte channel records of a block: a 16-bit word whose low 12 bits
   * are the channel number, then a 16-bit region id; 1 to 3 leftover bytes
   * are ignored.
   */
  function ChannelPairs(s: seq<uint8>): (r: seq<ChannelNumber>)
    ensures |r| == |s| / 4
    ensures forall k | 0 <= k < |r| :: r[k].number < 0x1000
  {
    if |s| < 4 then []
    else [ChannelNumber(BigEndian16(s[0], s[1]) % 0x1000, BigEndian16(s[2], s[3]))] + ChannelPairs(s[4..])
  }

  /**
   * The value of every channel record, for any bytes: the number is the
   * first big-endian word with its top four bits masked off, the region the
   * second word.
   */
  lemma {:induction false} ChannelPairsValues(s: seq<uint8>)
    ensures forall k | 0 <= k < |s| / 4 ::
      ChannelPairs(s)[k] == ChannelNumber(BigEndian16(s[4 * k], s[4 * k + 1]) % 0x1000, BigEndian16(s[4 * k + 2], s[4 * k + 3]))
    decreases |s|
  {
    if |s| >= 4 {
      var rest := s[4..];
      ChannelPairsValues(rest);
      forall k | 1 <= k < |s| / 4
        ensures ChannelPairs(s)[k] == ChannelNumber(BigEndian16(s[4 * k], s[4 * k + 1]) % 0x1000, BigEndian16(s[4 * k + 2], s[4 * k + 3]))
      {
        assert ChannelPairs(s)[k] == ChannelPairs(rest)[k - 1];
        assert rest[4 * (k - 1)] == s[4 * k] && rest[4 * (k - 1) + 1] == s[4 * k + 1];
        assert rest[4 * (k - 1) + 2] == s[4 * k + 2] && rest[4 * (k - 1) + 3] == s[4 * k + 3];
      }
    }
  }

  /** The complete service blocks at the front of `s`, in order. */
  function ServiceBlocks(s: seq<uint8>): seq<ServiceBlock>
    decreases |s|
  {
    if |s| < ServiceHeaderSize then []
    else
      var length := s[4] as nat;
      if |s| - ServiceHeaderSize < length then []
      else
        [ServiceBlock(BigEndian16(s[0], s[1]), ChannelPairs(s[5..5 + length]))] + ServiceBlocks(s[5 + length..])
  }

  /**
   * Every block the parser yields has at most 63 channels, since its length
   * is one byte, and every channel number is below 0x1000.
   */
  lemma {:induction false} ServiceBlocksBounds(s: seq<uint8>)
    ensures forall k | 0 <= k < |ServiceBlocks(s)| :: |ServiceBlocks(s)[k].channels| <= 63
    ensures forall k, j | 0 <= k < |ServiceBlocks(s)| && 0 <= j < |ServiceBlocks(s)[k].channels| ::
      ServiceBlocks(s)[k].channels[j].number < 0x1000
    decreases |s|
  {
    if |s| >= ServiceHeaderSize && |s| - ServiceHeaderSize >= s[4] as nat {
      ServiceBlocksBounds(s[5 + s[4] as nat..]);
    }
  }

  /** A channel record as it stands in a payload, with the four bits above its 12-bit number. */
  datatype ChannelBytes = ChannelBytes(channel: ChannelNumber, high: uint8)

  predicate ChannelEncodable(c: ChannelBytes)
  {
    c.channel.number < 0x1000 && c.high < 0x10
  }

  predicate ChannelsEncodable(cs: seq<ChannelBytes>)
  {
    forall k | 0 <= k < |cs| :: ChannelEncodable(cs[k])
  }

  function EncodeChannel(c: ChannelBytes): (b: seq<uint8>)
    requires ChannelEncodable(c)
    ensures |b| == 4
  {
    [c.high * 0x10 + c.channel.number / 0x100, c.channel.number % 0x100, c.channel.region / 0x100, c.channel.region % 0x100]
  }

  function EncodeChannels(cs: seq<ChannelBytes>): (b: seq<uint8>)
    requires ChannelsEncodable(cs)
    ensures |b| == 4 * |cs|
  {
    if cs == [] then [] else EncodeChannel(cs[0]) + EncodeChannels(cs[1..])
  }

  /** The channel numbers the encoded records carry. */
  function ChannelsIn(cs: seq<ChannelBytes>): (r: seq<ChannelNumber>)
    ensures |r| == |cs|
  {
    if cs == [] then [] else [cs[0].channel] + ChannelsIn(cs[1..])
  }

  /**
   * A service block as it stands in a payload: the two EPG flag bytes, and
   * up to three bytes after the last whole record that the length covers.
   */
  datatype BlockBytes = BlockBytes(sid: uint16, epg: seq<uint8>, channels: seq<ChannelBytes>, padding: seq<uint8>)

  /** A block whose records and padding fit the one-byte length field. */
  predicate BlockEncodable(b: BlockBytes)
  {
    |b.epg| == 2 && |b.padding| < 4 && 4 * |b.channels| + |b.padding| < 0x100 && ChannelsEncodable(b.channels)
  }

  function EncodeServiceBlock(b: BlockBytes): (r: seq<uint8>)
    requires BlockEncodable(b)
    ensures |r| == ServiceHeaderSize + 4 * |b.channels| + |b.padding|
  {
    [b.sid / 0x100, b.sid % 0x100] + b.epg + [4 * |b.channels| + |b.padding|]
      + (EncodeChannels(b.channels) + b.padding)
  }

  predicate BlocksEncodable(bs: seq<BlockBytes>)
  {
    forall k | 0 <= k < |bs| :: BlockEncodable(bs[k])
  }

  function EncodeServiceBlocks(bs: seq<BlockBytes>): seq<uint8>
    requires BlocksEncodable(bs)
  {
    if bs == [] then [] else EncodeServiceBlock(bs[0]) + EncodeServiceBlocks(bs[1..])
  }

  /** The blocks the encoded blocks carry, without their skipped bytes. */
  function BlocksOf(bs: seq<BlockBytes>): (r: seq<ServiceBlock>)
    ensures |r| == |bs|
  {
    if bs == [] then [] else [ServiceBlock(bs[0].sid, ChannelsIn(bs[0].channels))] + BlocksOf(bs[1..])
  }

  /**
   * Channel records decode back whatever their top four number bits hold
   * (the mask drops them), and whatever 0..3 bytes follow them.
   */
  lemma {:induction false} ChannelPairsRoundTrip(cs: seq<ChannelBytes>, extra: seq<uint8>)
    requires ChannelsEncodable(cs)
    requires |extra| < 4
    ensures ChannelPairs(EncodeChannels(cs) + extra) == ChannelsIn(cs)
  {
    if cs != [] {
      var c := cs[0].channel;
      var s := EncodeChannels(cs) + extra;
      var rest := EncodeChannels(cs[1..]) + extra;
      AppendAssoc(EncodeChannel(cs[0]), EncodeChannels(cs[1..]), extra);
      assert s[4..] == rest;
      assert s[0] == cs[0].high * 0x10 + c.number / 0x100 && s[1] == c.number % 0x100;
      assert BigEndian16(s[0], s[1]) % 0x1000 == c.number;
      assert BigEndian16(s[2], s[3]) == c.region;
      ChannelPairsRoundTrip(cs[1..], extra);
    }
  }

  /** One encoded block at the front decodes to itself; the parse resumes after it. */
  lemma ServiceBlocksStep(b: BlockBytes, rest: seq<uint8>)
    requires BlockEncodable(b)
    ensures ServiceBlocks(EncodeServiceBlock(b) + rest) == [ServiceBlock(b.sid, ChannelsIn(b.channels))] + ServiceBlocks(rest)
  {
    var body := EncodeChannels(b.channels) + b.padding;
    var head := [b.sid / 0x100, b.sid % 0x100] + b.epg + [4 * |b.channels| + |b.padding|];
    var s := EncodeServiceBlock(b) + rest;
    var length := 4 * |b.channels| + |b.padding|;
    assert |head| == 5;
    assert s == head + body + rest;
    assert s[4] == length;
    assert s[5..5 + length] == body;
    assert s[5 + length..] == rest;
    assert BigEndian16(s[0], s[1]) == b.sid;
    ChannelPairsRoundTrip(b.channels, b.padding);
  }

  /**
   * Each block consumes its 5 header bytes and exactly L bytes after them,
   * the ones past the last whole record included, and the parse resumes
   * after them, whatever the EPG and leftover bytes hold.
   */
  lemma {:induction false} ServiceBlocksRoundTrip(bs: seq<BlockBytes>, tail: seq<uint8>)
    requires BlocksEncodable(bs)
    ensures ServiceBlocks(EncodeServiceBlocks(bs) + tail) == BlocksOf(bs) + ServiceBlocks(tail)
    decreases |bs|
  {
    if bs == [] {
      AppendAssoc(tail, [], []);
      AppendAssoc(ServiceBlocks(tail), [], []);
    } else {
      var b, more := bs[0], bs[1..];
      assert BlocksEncodable(more);
      assert EncodeServiceBlocks(bs) == EncodeServiceBlock(b) + EncodeServiceBlocks(more);
      AppendAssoc(EncodeServiceBlock(b), EncodeServiceBlocks(more), tail);
      ServiceBlocksStep(b, EncodeServiceBlocks(more) + tail);
      ServiceBlocksRoundTrip(more, tail);
      AppendAssoc([ServiceBlock(b.sid, ChannelsIn(b.channels))], BlocksOf(more), ServiceBlocks(tail));
    }
  }

  /** Truncation tolerance: a trailing block cut short anywhere is dropped. */
  lemma TruncatedBlockDropped(bs: seq<BlockBytes>, last: BlockBytes, k: nat)
    requires BlocksEncodable(bs) && BlockEncodable(last)
    requires k < |EncodeServiceBlock(last)|
    ensures ServiceBlocks(EncodeServiceBlocks(bs) + EncodeServiceBlock(last)[..k]) == BlocksOf(bs)
  {
    var cut := EncodeServiceBlock(last)[..k];
    ServiceBlocksRoundTrip(bs, cut);
    if k >= ServiceHeaderSize {
      assert cut[4] == 4 * |last.channels| + |last.padding|;
    }
    assert ServiceBlocks(cut) == [];
  }

  /** The channel list of `sid` before a block is appended to it. */
  function ChannelsOf(services: map<uint16, seq<ChannelNumber>>, sid: uint16): seq<ChannelNumber>
  {
    if sid in services then services[sid] else []
  }

  /** The service ids the blocks name. */
  function Sids(blocks: seq<ServiceBlock>): (ids: set<uint16>)
    ensures forall k | 0 <= k < |blocks| :: blocks[k].sid in ids
  {
    if blocks == [] then {} else {blocks[0].sid} + Sids(blocks[1..])
  }

  /** Every service of `before` is in `after`, its old list a prefix of its new one. */
  predicate Extends(before: map<uint16, seq<ChannelNumber>>, after: map<uint16, seq<ChannelNumber>>)
  {
    forall sid | sid in before :: sid in after && before[sid] <= after[sid]
  }

  lemma ExtendsTrans(a: map<uint16, seq<ChannelNumber>>, b: map<uint16, seq<ChannelNumber>>, c: map<uint16, seq<ChannelNumber>>)
    requires Extends(a, b) && Extends(b, c)
    ensures Extends(a, c)
  {
  }

  /** One block appended to its service's list. */
  function AppendBlock(services: map<uint16, seq<ChannelNumber>>, b: ServiceBlock): (r: map<uint16, seq<ChannelNumber>>)
    ensures Extends(services, r)
    ensures b.sid in r && |r[b.sid]| == |ChannelsOf(services, b.sid)| + |b.channels|
  {
    services[b.sid := ChannelsOf(services, b.sid) + b.channels]
  }

  /**
   * The services map after the blocks, in order: each block appends its
   * channels to its service's list, creating the service when absent.
   */
  function AppendServices(services: map<uint16, seq<ChannelNumber>>, blocks: seq<ServiceBlock>)
    : (r: map<uint16, seq<ChannelNumber>>)
    ensures r.Keys == services.Keys + Sids(blocks)
    ensures Extends(services, r)
    decreases |blocks|
  {
    if blocks == [] then services
    else
      var next := AppendBlock(services, blocks[0]);
      var r := AppendServices(next, blocks[1..]);
      ExtendsTrans(services, next, r);
      r
  }

  lemma AppendServicesCons(services: map<uint16, seq<ChannelNumber>>, b: ServiceBlock, rest: seq<ServiceBlock>)
    ensures AppendServices(services, [b] + rest) == AppendServices(AppendBlock(services, b), rest)
  {
    assert ([b] + rest)[1..] == rest;
  }

  /** The channels that the blocks give one service, in order (a reference definition). */
  function ServiceChannels(blocks: seq<ServiceBlock>, sid: uint16): seq<ChannelNumber>
  {
    if blocks == [] then []
    else (if blocks[0].sid == sid then blocks[0].channels else []) + ServiceChannels(blocks[1..], sid)
  }

  /** One block lengthens only its own service's list, by its channels. */
  lemma AppendBlockChannels(services: map<uint16, seq<ChannelNumber>>, b: ServiceBlock, sid: uint16)
    ensures ChannelsOf(AppendBlock(services, b), sid)
         == ChannelsOf(services, sid) + (if b.sid == sid then b.channels else [])
  {
  }

  /**
   * A service's list is its old list followed by the channels of every block
   * for it, concatenated in order and never deduplicated.
   */
  lemma {:induction false} AppendServicesChannels(services: map<uint16, seq<ChannelNumber>>, blocks: seq<ServiceBlock>, sid: uint16)
    ensures ChannelsOf(AppendServices(services, blocks), sid) == ChannelsOf(services, sid) + ServiceChannels(blocks, sid)
    decreases |blocks|
  {
    if blocks == [] {
      AppendAssoc(ChannelsOf(services, sid), [], []);
    } else {
      var b := blocks[0];
      var next := AppendBlock(services, b);
      var own := if b.sid == sid then b.channels else [];
      var later := ServiceChannels(blocks[1..], sid);
      assert AppendServices(services, blocks) == AppendServices(next, blocks[1..]);
      assert ServiceChannels(blocks, sid) == own + later;
      AppendServicesChannels(next, blocks[1..], sid);
      AppendBlockChannels(services, b, sid);
      AppendAssoc(ChannelsOf(services, sid), own, later);
    }
  }

  /** Appending two runs of blocks is appending their concatenation. */
  lemma {:induction false} AppendServicesConcat(services: map<uint16, seq<ChannelNumber>>, a: seq<ServiceBlock>, b: seq<ServiceBlock>)
    ensures AppendServices(AppendServices(services, a), b) == AppendServices(services, a + b)
    decreases |a|
  {
    if a == [] {
      AppendAssoc(b, [], []);
    } else {
      AppendServicesConcat(AppendBlock(services, a[0]), a[1..], b);
      ConsAppend(a, b);
    }
  }

  /** The channel record at offset `idx` of the `length` bytes at `it`, and what follows it. */
  lemma ChannelPairsAt(payload: seq<uint8>, it: nat, length: nat, idx: nat)
    requires it + length <= |payload| && idx + 4 <= length
    ensures ChannelPairs(payload[it..it + length][idx..])
      == [ChannelNumber(BigEndian16(payload[it + idx], payload[it + idx + 1]) % 0x1000,
                        BigEndian16(payload[it + idx + 2], payload[it + idx + 3]))]
         + ChannelPairs(payload[it..it + length][idx + 4..])
  {
    var s := payload[it..it + length][idx..];
    assert s[0] == payload[it + idx] && s[1] == payload[it + idx + 1];
    assert s[2] == payload[it + idx + 2] && s[3] == payload[it + idx + 3];
    assert s[4..] == payload[it..it + length][idx + 4..];
  }

  /**
   * The inner loop of the channel-number walk: appends one channel number
   * per whole four-byte record of the `length` bytes at `it`.
   */
  method PushChannelNumbers(payload: seq<uint8>, it: nat, length: nat, channelnumbers: seq<ChannelNumber>)
    returns (r: seq<ChannelNumber>)
    requires it + length <= |payload|
    ensures r == channelnumbers + ChannelPairs(payload[it..it + length])
  {
    ghost var block := payload[it..it + length];
    r := channelnumbers;
    var idx := 0;
    assert block[0..] == block;
    while idx + 3 < length
      invariant 0 <= idx <= length
      invariant r + ChannelPairs(block[idx..]) == channelnumbers + ChannelPairs(block)
    {
      var number := BigEndian16(payload[it + idx], payload[it + idx + 1]) % 0x1000;
      var region := BigEndian16(payload[it + idx + 2], payload[it + idx + 3]);
      ChannelPairsAt(payload, it, length, idx);
      AppendAssoc(r, [ChannelNumber(number, region)], ChannelPairs(block[idx + 4..]));
      r := r + [ChannelNumber(number, region)];
      idx := idx + 4;
    }
    assert ChannelPairs(block[idx..]) == [];
  }

  /** The block that starts at `it`, when its L bytes fit, and what follows it. */
  lemma ServiceBlocksAt(payload: seq<uint8>, it: nat)
    requires it + ServiceHeaderSize <= |payload|
    requires it + ServiceHeaderSize + payload[it + 4] as nat <= |payload|
    ensures var length := payload[it + 4] as nat;
      ServiceBlocks(payload[it..])
      == [ServiceBlock(BigEndian16(payload[it], payload[it + 1]), ChannelPairs(payload[it + 5..it + 5 + length]))]
         + ServiceBlocks(payload[it + 5 + length..])
  {
    var s := payload[it..];
    var length := payload[it + 4] as nat;
    assert s[4] == payload[it + 4];
    assert s[5..5 + length] == payload[it + 5..it + 5 + length];
    assert s[5 + length..] == payload[it + 5 + length..];
  }

  /**
   * The walk of the source over a channel-number descriptor's payload with a
   * cursor `it`: each block's records are appended to its service's list.
   */
  method DecodeChannelDescriptor(payload: seq<uint8>, services: map<uint16, seq<ChannelNumber>>)
    returns (r: map<uint16, seq<ChannelNumber>>)
    ensures r == AppendServices(services, ServiceBlocks(payload))
  {
    r := services;
    var it := 0;
    assert payload[0..] == payload;
    while |payload| - it >= ServiceHeaderSize
      invariant 0 <= it <= |payload|
      invariant AppendServices(r, ServiceBlocks(payload[it..])) == AppendServices(services, ServiceBlocks(payload))
    {
      ghost var start := it;
      var sid := BigEndian16(payload[it], payload[it + 1]);
      // bytes 2 and 3 hold EPG flags, which the source narrows and never uses
      var length := payload[it + 4] as nat;
      it := it + ServiceHeaderSize;
      if |payload| - it < length {
        assert ServiceBlocks(payload[start..]) == [];
        break;
      }
      ServiceBlocksAt(payload, start);
      ghost var block := ServiceBlock(sid, ChannelPairs(payload[it..it + length]));
      AppendServicesCons(r, block, ServiceBlocks(payload[it + length..]));
      var channelnumbers := PushChannelNumbers(payload, it, length, ChannelsOf(r, sid));
      r := r[sid := channelnumbers];
      it := it + length;
    }
  }

  // ---------------------------------------------------------------------------
  // Worked examples
  // ---------------------------------------------------------------------------

  /** The bytes of records (1, "A") and (2, "BB"), reserved bytes 0. */
  lemma RegionExampleBytes()
    ensures EncodeRegion(RegionBytes(RegionRecord(1, [0x41]), [0, 0, 0]))
          + EncodeRegion(RegionBytes(RegionRecord(2, [0x42, 0x42]), [0, 0, 0]))
         == [0x00, 0x01, 0, 0, 0, 1, 0x41, 0x00, 0x02, 0, 0, 0, 2, 0x42, 0x42]
  {
    assert EncodeRegion(RegionBytes(RegionRecord(1, [0x41]), [0, 0, 0])) == [0x00, 0x01, 0, 0, 0, 1, 0x41];
    assert EncodeRegion(RegionBytes(RegionRecord(2, [0x42, 0x42]), [0, 0, 0])) == [0x00, 0x02, 0, 0, 0, 2, 0x42, 0x42];
  }

  /** Records (1, "A") and (2, "BB") decode to a map with those two regions. */
  lemma RegionDescriptorExample()
    ensures ApplyRegions(map[], RegionRecords([0x00, 0x01, 0, 0, 0, 1, 0x41, 0x00, 0x02, 0, 0, 0, 2, 0x42, 0x42]))
         == map[1 := [0x41], 2 := [0x42, 0x42]]
  {
    var r1, r2 := RegionBytes(RegionRecord(1, [0x41]), [0, 0, 0]), RegionBytes(RegionRecord(2, [0x42, 0x42]), [0, 0, 0]);
    RegionExampleBytes();
    RegionRecordsStep(r1, EncodeRegion(r2));
    RegionRecordsStep(r2, []);
    AppendAssoc(EncodeRegion(r2), [], []);
    assert RegionRecords([]) == [];
    assert [r1.rec] + ([r2.rec] + []) == [r1.rec, r2.rec];
    ApplyRegionsCons(map[], r1.rec, [r2.rec]);
    ApplyRegionsCons(map[1 := [0x41]], r2.rec, []);
  }

  /** Service 100 with the record (0x1234, 0x0007) gets channel 0x234 in region 7. */
  lemma ChannelDescriptorExample()
    ensures AppendServices(map[], ServiceBlocks([0x00, 100, 0, 0, 4, 0x12, 0x34, 0x00, 0x07]))
         == map[100 := [ChannelNumber(0x234, 7)]]
  {
    var b := ServiceBlock(100, [ChannelNumber(0x234, 7)]);
    ChannelExampleBlocks();
    AppendServicesCons(map[], b, []);
    assert ChannelsOf(map[], 100) == [];
    AppendAssoc(b.channels, [], []);
    assert AppendBlock(map[], b) == map[100 := [ChannelNumber(0x234, 7)]];
  }

  /** The example payload holds one block: service 100 with one channel. */
  lemma ChannelExampleBlocks()
    ensures ServiceBlocks([0x00, 100, 0, 0, 4, 0x12, 0x34, 0x00, 0x07])
         == [ServiceBlock(100, [ChannelNumber(0x234, 7)])] + []
  {
    var s: seq<uint8> := [0x00, 100, 0, 0, 4, 0x12, 0x34, 0x00, 0x07];
    ServiceBlocksAt(s, 0);
    assert s[0..] == s && s[5..9] == [0x12, 0x34, 0x00, 0x07] && s[9..] == [];
    ChannelExamplePairs();
  }

  /** The example's channel record: number 0x234 under its top bits, region 7. */
  lemma ChannelExamplePairs()
    ensures ChannelPairs([0x12, 0x34, 0x00, 0x07]) == [ChannelNumber(0x234, 7)]
  {
    var t: seq<uint8> := [0x12, 0x34, 0x00, 0x07];
    assert t[4..] == [];
  }
}
