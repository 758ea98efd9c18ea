/** The TCG_PCR_EVENT2 decoders run over a `UefiParser`: the payload decoders
    of the registered event handlers, the variable decoders they dispatch to,
    and `UEFIParser.parse_event`, which reads a record's header fields and
    hands exactly its payload to the handler looked up for it. Each method
    advances the parser it is given and agrees with the `UefiEvents` step of
    the same name. */
module UefiEventsParser {
  import opened Common
  import B = UefiBase
  import G = UefiEvents
  import DPP = DevicePathParser
  import SBP = SecureBootParser
  import opened UefiParser

  /** `UEFI_EV_S_CRTM_ContentsEvent.parse` */
  method CrtmContentsEvent(p: UefiParser) returns (r: Result<G.Payload>)
    requires p.Valid()
    modifies p`offset
    ensures p.Valid()
    ensures Tracks(r, p.offset, G.CrtmContentsEvent(p.data, old(p.offset)))
  {
    var ds :- p.GetInt(1);
    var description :- p.GetBytes(ds);
    var blobBase :- p.GetInt(8);
    var blobLength :- p.GetInt(8);
    return Ok(G.CrtmContents(description, blobBase, blobLength));
  }

  /** `UEFI_EV_EFI_PlatformFirmwareBlobEvent.parse` */
  method FirmwareBlobEvent(p: UefiParser) returns (r: Result<G.Payload>)
    requires p.Valid()
    modifies p`offset
    ensures p.Valid()
    ensures Tracks(r, p.offset, G.FirmwareBlobEvent(p.data, old(p.offset)))
  {
    var blobBase :- p.GetInt(8);
    var blobLength :- p.GetInt(8);
    return Ok(G.FirmwareBlob(blobBase, blobLength));
  }

  /** `handler.parse(subparser)` for the variable handler looked up. */
  method DecodeVariable(h: G.VariableHandler, p: UefiParser) returns (r: Result<G.Variable>)
    requires p.Valid()
    modifies p`offset
    ensures p.Valid()
    ensures Tracks(r, p.offset, G.DecodeVariable(h, p.data, old(p.offset)))
  {
    match h {
      case BootOptionHandler =>
        var option :- DPP.BootVariable(p);
        r := Ok(G.BootOptionVariable(option));
      case BootOrderHandler =>
        var order :- DPP.BootOrder(p);
        r := Ok(G.BootOrderVariable(order));
      case SecureBootHandler =>
        var enabled :- SBP.SecureBootVariable(p);
        r := Ok(G.SecureBootVariable(enabled));
      case SignaturesHandler =>
        var lists :- SBP.SignaturesVariable(p);
        r := Ok(G.SignaturesVariable(lists));
      case UnknownVariableHandler =>
        var rest := p.GetBytes(p.Left());
        r := Ok(G.UnknownVariable(rest.value));
    }
  }

  /** `UEFIVariableDataEvent.parse` */
  method VariableDataEvent(p: UefiParser) returns (r: Result<G.Payload>)
    requires p.Valid()
    modifies p`offset
    ensures p.Valid()
    ensures Tracks(r, p.offset, G.VariableDataEvent(p.data, old(p.offset)))
  {
    var record :- p.VariableRecord();
    var sub := p.GetSubparser(record.variableData);
    var handler := G.LookupVariableHandler(record.variableName, record.unicodeName);
    var variable :- DecodeVariable(handler, sub);
    if p.Left() > 0 {
      return Err(NotConsumed(p.Left()));
    }
    return Ok(G.VariableData(record.variableName, record.unicodeName, variable));
  }

  /** The four 8-byte fields in front of the device paths. */
  method ImageFields(p: UefiParser) returns (r: Result<(nat, nat, nat, nat)>)
    requires p.Valid()
    modifies p`offset
    ensures p.Valid()
    ensures Tracks(r, p.offset, G.ImageFields(p.data, old(p.offset)))
  {
    var location :- p.GetInt(8);
    var length :- p.GetInt(8);
    var linkTime :- p.GetInt(8);
    var dpl :- p.GetInt(8);
    return Ok((location, length, linkTime, dpl));
  }

  /** `UEFI_EF_EFI_BootServicesApplicationEvent.parse` */
  method BootServicesApplicationEvent(p: UefiParser) returns (r: Result<G.Payload>)
    requires p.Valid()
    modifies p`offset
    ensures p.Valid()
    ensures Tracks(r, p.offset, G.BootServicesApplicationEvent(p.data, old(p.offset)))
  {
    var fields :- ImageFields(p);
    var (location, length, linkTime, dpl) := fields;
    var dpData :- p.GetBytes(dpl);
    var dpParser := p.GetSubparser(dpData);
    var paths :- DPP.ParseDevicePath(dpParser);
    return Ok(G.BootServicesApplication(location, length, linkTime, paths));
  }

  /** `UEFI_EV_EFI_HandoffTablesEvent.parse`: the table count counts down as
      entries are read. */
  method HandoffTablesEvent(p: UefiParser) returns (r: Result<G.Payload>)
    requires p.Valid()
    modifies p`offset
    ensures p.Valid()
    ensures Tracks(r, p.offset, G.HandoffTablesEvent(p.data, old(p.offset)))
  {
    var numTables :- p.GetInt(8);
    ghost var start := p.offset;
    ghost var total := numTables;
    var entries: seq<(Guid, nat)> := [];
    while numTables > 0
      invariant p.Valid()
      invariant G.HandoffRun(p.data, p.offset, numTables, entries) == G.HandoffRun(p.data, start, total, [])
      decreases numTables
    {
      var guid :- p.GetGuid();
      var table :- p.GetInt(8);
      entries := entries + [(guid, table)];
      numTables := numTables - 1;
    }
    return Ok(G.HandoffTables(entries));
  }

  /** `UEFI_EV_EventTagEvent.parse` */
  method EventTagEvent(p: UefiParser) returns (r: Result<G.Payload>)
    requires p.Valid()
    modifies p`offset
    ensures p.Valid()
    ensures Tracks(r, p.offset, G.EventTagEvent(p.data, old(p.offset)))
  {
    var id :- p.GetUint32();
    var dataLen :- p.GetUint32();
    var tagged :- p.GetBytes(dataLen);
    return Ok(G.EventTag(id, tagged));
  }

  /** `UEFIPartitionHeader.parse` */
  method PartitionHeader(p: UefiParser) returns (r: Result<G.PartitionHeader>)
    requires p.Valid()
    modifies p`offset
    ensures p.Valid()
    ensures Tracks(r, p.offset, G.PartitionHeaderFields(p.data, old(p.offset)))
  {
    var signature :- p.GetInt(8);
    var revision :- p.GetUint32();
    var headerSize :- p.GetUint32();
    var headerCrc32 :- p.GetUint32();
    var _ :- p.GetUint32();
    var myLba :- p.GetInt(8);
    var alternateLba :- p.GetInt(8);
    assert G.PartitionHeaderStart(p.data, old(p.offset))
           == Ok(((signature, revision, headerSize, headerCrc32, myLba, alternateLba), p.offset));
    var firstUsableLba :- p.GetInt(8);
    var lastUsableLba :- p.GetInt(8);
    var diskGuid :- p.GetGuid();
    var partitionEntryLba :- p.GetInt(8);
    var count :- p.GetUint32();
    var entrySize :- p.GetUint32();
    var arrayCrc32 :- p.GetUint32();
    return Ok(G.PartitionHeader(signature, revision, headerSize, headerCrc32, myLba, alternateLba,
                                firstUsableLba, lastUsableLba, diskGuid, partitionEntryLba, count,
                                entrySize, arrayCrc32));
  }

  /** `UEFIPartitionEntry.parse` */
  method PartitionEntry(p: UefiParser) returns (r: Result<G.PartitionEntry>)
    requires p.Valid()
    modifies p`offset
    ensures p.Valid()
    ensures Tracks(r, p.offset, G.PartitionEntryFields(p.data, old(p.offset)))
  {
    var typeGuid :- p.GetGuid();
    var uniqueGuid :- p.GetGuid();
    var startingLba :- p.GetInt(8);
    var endingLba :- p.GetInt(8);
    var attributes :- p.GetInt(8);
    var name :- p.GetBytes(36 * 2);
    return Ok(G.PartitionEntry(typeGuid, uniqueGuid, startingLba, endingLba, attributes, name));
  }

  /** The entry loop of `UEFI_EV_EFI_GPTEvent.parse`: the partition count
      counts down as entries are read. */
  method PartitionEntries(p: UefiParser, numPartitions: nat) returns (r: Result<seq<G.PartitionEntry>>)
    requires p.Valid()
    modifies p`offset
    ensures p.Valid()
    ensures Tracks(r, p.offset, G.PartitionEntryRun(p.data, old(p.offset), numPartitions, []))
  {
    var count := numPartitions;
    var entries: seq<G.PartitionEntry> := [];
    while count > 0
      invariant p.Valid()
      invariant G.PartitionEntryRun(p.data, p.offset, count, entries)
                == G.PartitionEntryRun(p.data, old(p.offset), numPartitions, [])
      decreases count
    {
      var entry :- PartitionEntry(p);
      entries := entries + [entry];
      count := count - 1;
    }
    return Ok(entries);
  }

  /** `UEFI_EV_EFI_GPTEvent.parse` */
  method GptEvent(p: UefiParser) returns (r: Result<G.Payload>)
    requires p.Valid()
    modifies p`offset
    ensures p.Valid()
    ensures Tracks(r, p.offset, G.GptEvent(p.data, old(p.offset)))
  {
    var header :- PartitionHeader(p);
    var numPartitions :- p.GetInt(8);
    var entries :- PartitionEntries(p, numPartitions);
    return Ok(G.Gpt(header, entries));
  }

  /** `cls.parse(subparser, header)` for the event handler looked up. */
  method DecodePayload(h: G.EventHandler, p: UefiParser) returns (r: Result<G.Payload>)
    requires p.Valid()
    modifies p`offset
    ensures p.Valid()
    ensures Tracks(r, p.offset, G.DecodePayload(h, p.data, old(p.offset)))
  {
    match h {
      case CrtmContentsHandler => r := CrtmContentsEvent(p);
      case CrtmVersionHandler =>
        var b := p.GetBytes(p.Left());
        r := Ok(G.CrtmVersion(b.value));
      case FirmwareBlobHandler => r := FirmwareBlobEvent(p);
      case VariableDataHandler => r := VariableDataEvent(p);
      case SeparatorHandler =>
        var b := p.GetBytes(p.Left());
        r := Ok(G.Separator(b.value));
      case EfiActionHandler =>
        var b := p.GetBytes(p.Left());
        r := Ok(G.EfiAction(b.value));
      case BootServicesApplicationHandler => r := BootServicesApplicationEvent(p);
      case IplHandler =>
        var b := p.GetBytes(p.Left());
        r := Ok(G.Ipl(b.value));
      case PostCodeHandler =>
        var b := p.GetBytes(p.Left());
        r := Ok(G.PostCode(b.value));
      case HandoffTablesHandler => r := HandoffTablesEvent(p);
      case EventTagHandler => r := EventTagEvent(p);
      case GptHandler => r := GptEvent(p);
      case VariableAuthorityHandler =>
        var authority :- SBP.VariableAuthorityEvent(p);
        r := Ok(G.VariableAuthority(authority));
      case UnknownEventHandler =>
        var b := p.GetBytes(p.Left());
        r := Ok(G.UnknownPayload(b.value));
    }
  }

  /** `UEFIParser.parse_event()`: pcr, a known event type and the digest
      list read with the parser's digest sizes, then the uint32-prefixed
      payload decoded by a sub-parser. The context is left as it was. */
  method ParseEvent(p: UefiParser) returns (r: Result<G.Event>)
    requires p.Valid()
    modifies p`offset
    ensures p.Valid()
    ensures Tracks(r, p.offset, G.ParseEvent(p.data, old(p.offset), p.Context()))
  {
    var pcr :- p.GetUint32();
    var code :- p.GetUint32();
    var eventType :- B.EventType(code);
    var digests :- p.GetDigests();
    var header := G.EventHeader(pcr, eventType, digests);
    assert G.EventHeaderFields(p.data, old(p.offset), p.Context()) == Ok((header, p.offset));
    var subdata :- p.GetLenBytes();
    var sub := p.GetSubparser(subdata);
    var handler := G.LookupEventHandler(eventType, pcr);
    var payload :- DecodePayload(handler, sub);
    return Ok(G.Event(header, payload));
  }
}
