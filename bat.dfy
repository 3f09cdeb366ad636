/**
 * `bat::put_bat` of freesat.cpp: a decoded Bouquet Association Table
 * (ETSI EN 300 468 section 5.2.2) updates a document that maps bouquet ids to
 * bouquets, gated by the table's version.
 *
 * The effect of one table is given by folds over its descriptor lists
 * (`ApplyDescriptors`, `EntriesServices`) and, independently, by flat
 * reference definitions that concatenate every record of the table first
 * (`RegionRecordsOf`, `EntriesBlocks`); `DecodeBouquetFlat` proves that the
 * two agree. The document update is `ApplyBat`, and the class `BatDecoder`
 * holds the document and performs the walk of the source in place.
 */
module BatDecoding {
  import opened Common
  import opened BatDescriptors

  /** Table id of the Bouquet Association Table; other tables are never decoded. */
  const BatTableId: uint8 := 0x4a
  /** Tag of the bouquet_name_descriptor (ETSI EN 300 468 section 6.2.4). */
  const BouquetNameTag: uint8 := 0x47

  datatype Descriptor = Descriptor(tag: uint8, data: seq<uint8>)

  /** One entry of the transport-stream loop: its id and its descriptors. */
  datatype TsEntry = TsEntry(tsId: uint16, descriptors: seq<Descriptor>)

  /** A decoded table instance, as the section decoder hands it over. */
  datatype BatTable = BatTable(bouquetId: uint16, version: uint8, descriptors: seq<Descriptor>, tsEntries: seq<TsEntry>)

  /** A table instance together with the table id of its sub-table. */
  datatype TableInstance = TableInstance(tableId: uint8, table: BatTable)

  datatype Bouquet = Bouquet(
    version: uint8,
    name: Option<seq<uint8>>,
    regions: map<uint16, seq<uint8>>,
    services: map<uint16, seq<ChannelNumber>>)

  /** The record a newer version starts from: no name, no regions, no services. */
  function Fresh(version: uint8): (b: Bouquet)
    ensures b.version == version && b.name.None? && b.regions == map[] && b.services == map[]
  {
    Bouquet(version, None, map[], map[])
  }

  // ---------------------------------------------------------------------------
  // The bouquet loop: name and region descriptors
  // ---------------------------------------------------------------------------

  /** One descriptor of the bouquet loop; tags other than 0x47 and 0xd4 change nothing. */
  function ApplyDescriptor(b: Bouquet, d: Descriptor): (r: Bouquet)
    ensures r.version == b.version && r.services == b.services
  {
    if d.tag == BouquetNameTag then b.(name := Some(d.data))
    else if d.tag == RegionTag then b.(regions := ApplyRegions(b.regions, RegionRecords(d.data)))
    else b
  }

  /** The descriptors of the bouquet loop applied in order. */
  function ApplyDescriptors(b: Bouquet, descs: seq<Descriptor>): (r: Bouquet)
    ensures r.version == b.version && r.services == b.services
  {
    if descs == [] then b
    else ApplyDescriptor(ApplyDescriptors(b, descs[..|descs| - 1]), descs[|descs| - 1])
  }

  /** The bouquet loop one descriptor further on. */
  lemma ApplyDescriptorsPrefix(b: Bouquet, descs: seq<Descriptor>, i: nat)
    requires i < |descs|
    ensures ApplyDescriptors(b, descs[..i + 1]) == ApplyDescriptor(ApplyDescriptors(b, descs[..i]), descs[i])
  {
    assert descs[..i + 1][..i] == descs[..i];
  }

  /** The payload of the last name descriptor, if there is one (a reference definition). */
  function LastName(descs: seq<Descriptor>): Option<seq<uint8>>
  {
    if descs == [] then None
    else if descs[|descs| - 1].tag == BouquetNameTag then Some(descs[|descs| - 1].data)
    else LastName(descs[..|descs| - 1])
  }

  /** Every region record of every region descriptor, in order (a reference definition). */
  function RegionRecordsOf(descs: seq<Descriptor>): seq<RegionRecord>
  {
    if descs == [] then []
    else
      var d := descs[|descs| - 1];
      RegionRecordsOf(descs[..|descs| - 1]) + (if d.tag == RegionTag then RegionRecords(d.data) else [])
  }

  /**
   * The bouquet loop keeps the last name descriptor's payload and inserts the
   * records of all region descriptors as if they formed one payload.
   */
  lemma {:induction false} ApplyDescriptorsFlat(b: Bouquet, descs: seq<Descriptor>)
    ensures ApplyDescriptors(b, descs).name == (if LastName(descs).Some? then LastName(descs) else b.name)
    ensures ApplyDescriptors(b, descs).regions == ApplyRegions(b.regions, RegionRecordsOf(descs))
    decreases |descs|
  {
    if descs == [] {
    } else {
      var init, d := descs[..|descs| - 1], descs[|descs| - 1];
      ApplyDescriptorsFlat(b, init);
      var recs := if d.tag == RegionTag then RegionRecords(d.data) else [];
      ApplyRegionsConcat(b.regions, RegionRecordsOf(init), recs);
    }
  }

  // ---------------------------------------------------------------------------
  // The transport-stream loop: channel-number descriptors
  // ---------------------------------------------------------------------------

  /** One descriptor of a transport-stream entry; only 0xd3 changes the services. */
  function ApplyTsDescriptor(services: map<uint16, seq<ChannelNumber>>, d: Descriptor): (r: map<uint16, seq<ChannelNumber>>)
    ensures Extends(services, r)
    ensures d.tag != ChannelNumberTag ==> r == services
  {
    if d.tag == ChannelNumberTag then AppendServices(services, ServiceBlocks(d.data)) else services
  }

  /** The descriptors of one transport-stream entry applied in order. */
  function TsServices(services: map<uint16, seq<ChannelNumber>>, descs: seq<Descriptor>): (r: map<uint16, seq<ChannelNumber>>)
    ensures Extends(services, r)
  {
    if descs == [] then services
    else
      var before := TsServices(services, descs[..|descs| - 1]);
      var r := ApplyTsDescriptor(before, descs[|descs| - 1]);
      ExtendsTrans(services, before, r);
      r
  }

  /** All transport-stream entries applied in order. */
  function EntriesServices(services: map<uint16, seq<ChannelNumber>>, entries: seq<TsEntry>): (r: map<uint16, seq<ChannelNumber>>)
    ensures Extends(services, r)
  {
    if entries == [] then services
    else
      var before := EntriesServices(services, entries[..|entries| - 1]);
      var r := TsServices(before, entries[|entries| - 1].descriptors);
      ExtendsTrans(services, before, r);
      r
  }

  /** Every service block of the 0xd3 descriptors of one entry, in order (a reference definition). */
  function TsBlocks(descs: seq<Descriptor>): seq<ServiceBlock>
  {
    if descs == [] then []
    else
      var d := descs[|descs| - 1];
      TsBlocks(descs[..|descs| - 1]) + (if d.tag == ChannelNumberTag then ServiceBlocks(d.data) else [])
  }

  /** Every service block of the whole transport-stream loop, in order (a reference definition). */
  function EntriesBlocks(entries: seq<TsEntry>): seq<ServiceBlock>
  {
    if entries == [] then []
    else EntriesBlocks(entries[..|entries| - 1]) + TsBlocks(entries[|entries| - 1].descriptors)
  }

  /** The transport-stream loop one entry further on. */
  lemma EntriesServicesPrefix(services: map<uint16, seq<ChannelNumber>>, entries: seq<TsEntry>, j: nat)
    requires j < |entries|
    ensures EntriesServices(services, entries[..j + 1]) == TsServices(EntriesServices(services, entries[..j]), entries[j].descriptors)
  {
    assert entries[..j + 1][..j] == entries[..j];
  }

  lemma {:induction false} TsServicesFlat(services: map<uint16, seq<ChannelNumber>>, descs: seq<Descriptor>)
    ensures TsServices(services, descs) == AppendServices(services, TsBlocks(descs))
    decreases |descs|
  {
    if descs == [] {
    } else {
      var init, d := descs[..|descs| - 1], descs[|descs| - 1];
      TsServicesFlat(services, init);
      var blocks := if d.tag == ChannelNumberTag then ServiceBlocks(d.data) else [];
      AppendServicesConcat(services, TsBlocks(init), blocks);
    }
  }

  /**
   * The transport-stream loop appends the blocks of all channel-number
   * descriptors of all entries as if they formed one payload.
   */
  lemma {:induction false} EntriesServicesFlat(services: map<uint16, seq<ChannelNumber>>, entries: seq<TsEntry>)
    ensures EntriesServices(services, entries) == AppendServices(services, EntriesBlocks(entries))
    decreases |entries|
  {
    if entries == [] {
    } else {
      var init, e := entries[..|entries| - 1], entries[|entries| - 1];
      EntriesServicesFlat(services, init);
      TsServicesFlat(EntriesServices(services, init), e.descriptors);
      AppendServicesConcat(services, EntriesBlocks(init), TsBlocks(e.descriptors));
    }
  }

  // ---------------------------------------------------------------------------
  // One table and the version gate
  // ---------------------------------------------------------------------------

  /** The bouquet a table decodes to: the bouquet loop, then the transport-stream loop. */
  function DecodeBouquet(t: BatTable): (b: Bouquet)
    ensures b.version == t.version
  {
    var named := ApplyDescriptors(Fresh(t.version), t.descriptors);
    named.(services := EntriesServices(named.services, t.tsEntries))
  }

  /**
   * A decoded bouquet is the table's version, the last name descriptor's
   * payload, every region record inserted in order and every service block
   * appended in order, nothing carried over from an older version.
   */
  lemma DecodeBouquetFlat(t: BatTable)
    ensures DecodeBouquet(t) == Bouquet(
      t.version,
      LastName(t.descriptors),
      ApplyRegions(map[], RegionRecordsOf(t.descriptors)),
      AppendServices(map[], EntriesBlocks(t.tsEntries)))
  {
    ApplyDescriptorsFlat(Fresh(t.version), t.descriptors);
    EntriesServicesFlat(map[], t.tsEntries);
  }

  /**
   * A service's channel list holds the records of every block for it, across
   * descriptors and transport-stream entries, concatenated and never merged.
   */
  lemma ServiceChannelList(t: BatTable, sid: uint16)
    ensures ChannelsOf(DecodeBouquet(t).services, sid) == ServiceChannels(EntriesBlocks(t.tsEntries), sid)
  {
    DecodeBouquetFlat(t);
    AppendServicesChannels(map[], EntriesBlocks(t.tsEntries), sid);
    AppendAssoc(ServiceChannels(EntriesBlocks(t.tsEntries), sid), [], []);
  }

  /** A region's name is that of the last record for it, in whichever region descriptor. */
  lemma RegionNameFromLastRecord(t: BatTable, i: nat)
    requires i < |RegionRecordsOf(t.descriptors)|
    requires forall k | i < k < |RegionRecordsOf(t.descriptors)| ::
      RegionRecordsOf(t.descriptors)[k].number != RegionRecordsOf(t.descriptors)[i].number
    ensures var rec := RegionRecordsOf(t.descriptors)[i];
      rec.number in DecodeBouquet(t).regions && DecodeBouquet(t).regions[rec.number] == rec.name
  {
    DecodeBouquetFlat(t);
    LastRegionRecordWins(map[], RegionRecordsOf(t.descriptors), i);
  }

  /** Whether the stored bouquet is at least as new as the table, so the table is ignored. */
  predicate UpToDate(doc: map<uint16, Bouquet>, t: BatTable)
  {
    t.bouquetId in doc && doc[t.bouquetId].version >= t.version
  }

  /**
   * The document after one table: unchanged when the stored version is not
   * older, otherwise that bouquet replaced wholesale and every other left alone.
   */
  function ApplyBat(doc: map<uint16, Bouquet>, t: BatTable): (r: map<uint16, Bouquet>)
    ensures UpToDate(doc, t) ==> r == doc
    ensures !UpToDate(doc, t) ==> r.Keys == doc.Keys + {t.bouquetId} && r[t.bouquetId] == DecodeBouquet(t)
    ensures forall id | id in doc && id != t.bouquetId :: id in r && r[id] == doc[id]
    ensures t.bouquetId in r
    ensures r[t.bouquetId].version == if t.bouquetId in doc && doc[t.bouquetId].version > t.version then doc[t.bouquetId].version else t.version
  {
    if UpToDate(doc, t) then doc else doc[t.bouquetId := DecodeBouquet(t)]
  }

  /** Only Bouquet Association Tables are decoded; any other table id leaves the document alone. */
  function OnTable(doc: map<uint16, Bouquet>, tableId: uint8, t: BatTable): (r: map<uint16, Bouquet>)
    ensures tableId != BatTableId ==> r == doc
    ensures tableId == BatTableId ==> r == ApplyBat(doc, t)
  {
    if tableId == BatTableId then ApplyBat(doc, t) else doc
  }

  /** The document after a run of table instances, in order. */
  function ApplyTables(doc: map<uint16, Bouquet>, tables: seq<TableInstance>): (r: map<uint16, Bouquet>)
    ensures doc.Keys <= r.Keys
    decreases |tables|
  {
    if tables == [] then doc
    else ApplyTables(OnTable(doc, tables[0].tableId, tables[0].table), tables[1..])
  }

  /** A table applied twice has the effect of applying it once. */
  lemma ApplyBatIdempotent(doc: map<uint16, Bouquet>, t: BatTable)
    ensures ApplyBat(ApplyBat(doc, t), t) == ApplyBat(doc, t)
  {
    assert UpToDate(ApplyBat(doc, t), t);
  }

  /** The document only grows, and no stored version ever goes down. */
  lemma {:induction false} VersionsNeverDecrease(doc: map<uint16, Bouquet>, tables: seq<TableInstance>)
    ensures forall id | id in doc :: id in ApplyTables(doc, tables) && ApplyTables(doc, tables)[id].version >= doc[id].version
    decreases |tables|
  {
    if tables != [] {
      var next := OnTable(doc, tables[0].tableId, tables[0].table);
      VersionsNeverDecrease(next, tables[1..]);
    }
  }

  /** Tables that are not Bouquet Association Tables are all ignored. */
  lemma {:induction false} OtherTablesIgnored(doc: map<uint16, Bouquet>, tables: seq<TableInstance>)
    requires forall k | 0 <= k < |tables| :: tables[k].tableId != BatTableId
    ensures ApplyTables(doc, tables) == doc
    decreases |tables|
  {
    if tables != [] {
      OtherTablesIgnored(doc, tables[1..]);
    }
  }

  /**
   * Versions 3, 2, 5 and 5 of one bouquet, in that order: the version-2 and
   * the second version-5 tables are ignored, and the first version-5 table wins.
   */
  lemma VersionSequence(a: BatTable, b: BatTable, c: BatTable, d: BatTable)
    requires a.bouquetId == b.bouquetId == c.bouquetId == d.bouquetId
    requires a.version == 3 && b.version == 2 && c.version == 5 && d.version == 5
    ensures ApplyTables(map[], [TableInstance(BatTableId, a), TableInstance(BatTableId, b),
                                TableInstance(BatTableId, c), TableInstance(BatTableId, d)])
         == map[a.bouquetId := DecodeBouquet(c)]
  {
    var tables := [TableInstance(BatTableId, a), TableInstance(BatTableId, b),
                   TableInstance(BatTableId, c), TableInstance(BatTableId, d)];
    var doc1 := ApplyBat(map[], a);
    var doc2 := ApplyBat(doc1, b);
    var doc3 := ApplyBat(doc2, c);
    assert doc2 == doc1 == map[a.bouquetId := DecodeBouquet(a)];
    assert doc3 == map[a.bouquetId := DecodeBouquet(c)];
    assert ApplyBat(doc3, d) == doc3;
    calc {
      ApplyTables(map[], tables);
      ApplyTables(doc1, tables[1..]);
      ApplyTables(doc2, tables[2..]);
      { assert tables[2..][1..] == tables[3..]; }
      ApplyTables(doc3, tables[3..]);
      { assert tables[3..][1..] == []; }
      ApplyTables(doc3, []);
    }
  }

  // ---------------------------------------------------------------------------
  // The decoder object
  // ---------------------------------------------------------------------------

  /**
   * The walk over one transport-stream entry's descriptors: each
   * channel-number descriptor appends its blocks to the services.
   */
  method DecodeTsDescriptors(descs: seq<Descriptor>, services: map<uint16, seq<ChannelNumber>>)
    returns (r: map<uint16, seq<ChannelNumber>>)
    ensures r == AppendServices(services, TsBlocks(descs))
  {
    r := services;
    var i := 0;
    while i < |descs|
      invariant 0 <= i <= |descs|
      invariant r == TsServices(services, descs[..i])
    {
      var desc := descs[i];
      if desc.tag == ChannelNumberTag {
        r := DecodeChannelDescriptor(desc.data, r);
      }
      assert descs[..i + 1][..i] == descs[..i];
      i := i + 1;
    }
    assert descs[..i] == descs;
    TsServicesFlat(services, descs);
  }

  /** Holds the document of bouquets that every decoded table updates. */
  class BatDecoder {
    var data: map<uint16, Bouquet>

    constructor()
      ensures data == map[]
    {
      data := map[];
    }

    /** Decodes one table into the document, unless the stored bouquet is at least as new. */
    method PutBat(t: BatTable)
      modifies this
      ensures data == ApplyBat(old(data), t)
    {
      if t.bouquetId in data && data[t.bouquetId].version >= t.version {
        assert UpToDate(data, t);
        return;
      }
      var bouq := Fresh(t.version);
      var i := 0;
      while i < |t.descriptors|
        invariant 0 <= i <= |t.descriptors|
        invariant data == old(data)
        invariant bouq == ApplyDescriptors(Fresh(t.version), t.descriptors[..i])
      {
        var desc := t.descriptors[i];
        if desc.tag == BouquetNameTag {
          bouq := bouq.(name := Some(desc.data));
        }
        if desc.tag == RegionTag {
          var regions := DecodeRegionDescriptor(desc.data, bouq.regions);
          bouq := bouq.(regions := regions);
        }
        ApplyDescriptorsPrefix(Fresh(t.version), t.descriptors, i);
        i := i + 1;
      }
      assert t.descriptors[..i] == t.descriptors;
      var j := 0;
      while j < |t.tsEntries|
        invariant 0 <= j <= |t.tsEntries|
        invariant data == old(data)
        invariant bouq == ApplyDescriptors(Fresh(t.version), t.descriptors).(
          services := EntriesServices(map[], t.tsEntries[..j]))
      {
        var services := DecodeTsDescriptors(t.tsEntries[j].descriptors, bouq.services);
        TsServicesFlat(bouq.services, t.tsEntries[j].descriptors);
        EntriesServicesPrefix(map[], t.tsEntries, j);
        bouq := bouq.(services := services);
        j := j + 1;
      }
      assert t.tsEntries[..j] == t.tsEntries;
      assert bouq == DecodeBouquet(t);
      data := data[t.bouquetId := bouq];
    }

    /** A table reaches `PutBat` only when its sub-table is a Bouquet Association Table. */
    method HandleTable(tableId: uint8, t: BatTable)
      modifies this
      ensures data == OnTable(old(data), tableId, t)
    {
      if tableId == BatTableId {
        PutBat(t);
      }
    }
  }
}
