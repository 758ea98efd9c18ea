/** The TCG_PCR_EVENT2 records of a UEFI event log after the header, as
    pure decoding steps: the variable registry and the variable decoders it
    selects, the event-handler registry keyed by (event type, pcr) or by
    event type alone, the payload decoders of the registered handlers
    (TCG PC Client Platform Firmware Profile, section 10.4, with the GPT
    structures of section 5.3 of the UEFI Specification), and `parse_event`,
    which dispatches a record's payload. The payload is decoded from offset 0
    of a buffer holding exactly its bytes, as the source's fresh sub-parser
    does. `UefiEventsParser` runs the same steps as methods over a parser. */
module UefiEvents {
  import opened Common
  import B = UefiBase
  import DP = DevicePath
  import SB = SecureBoot

  // ------------------------------------------------------ variable registry

  /** EFI_GLOBAL_VARIABLE, 8be4df61-93ca-11d2-aa0d-00e098032b8c, in its on-disk byte order. */
  const GLOBAL_VARIABLE_GUID: Guid := [0x61, 0xdf, 0xe4, 0x8b, 0xca, 0x93, 0xd2, 0x11,
                                       0xaa, 0x0d, 0x00, 0xe0, 0x98, 0x03, 0x2b, 0x8c]

  /** EFI_IMAGE_SECURITY_DATABASE_GUID, d719b2cb-3d3a-4596-a3bc-dad00e67656f, in its on-disk byte order. */
  const IMAGE_SECURITY_DATABASE_GUID: Guid := [0xcb, 0xb2, 0x19, 0xd7, 0x3a, 0x3d, 0x96, 0x45,
                                               0xa3, 0xbc, 0xda, 0xd0, 0x0e, 0x67, 0x65, 0x6f]

  /** The registered variable names, as the UTF-16LE bytes the registry is keyed by. */
  const BOOT_ORDER_NAME: bytes := [0x42, 0, 0x6F, 0, 0x6F, 0, 0x74, 0, 0x4F, 0, 0x72, 0, 0x64, 0, 0x65, 0, 0x72, 0]  // "BootOrder"
  const SECURE_BOOT_NAME: bytes := [0x53, 0, 0x65, 0, 0x63, 0, 0x75, 0, 0x72, 0, 0x65, 0, 0x42, 0, 0x6F, 0, 0x6F, 0, 0x74, 0]  // "SecureBoot"
  const PK_NAME: bytes := [0x50, 0, 0x4B, 0]  // "PK"
  const KEK_NAME: bytes := [0x4B, 0, 0x45, 0, 0x4B, 0]  // "KEK"
  const DB_NAME: bytes := [0x64, 0, 0x62, 0]  // "db"
  const DBX_NAME: bytes := [0x64, 0, 0x62, 0, 0x78, 0]  // "dbx"

  /** The variable decoders that can be registered. */
  datatype VariableHandler = BootOptionHandler | BootOrderHandler | SecureBootHandler
                           | SignaturesHandler | UnknownVariableHandler

  /** The registered signature databases: `PK` and `KEK` under the global
      GUID, `db` and `dbx` under the image-security-database GUID. */
  predicate IsSignatureDatabase(guid: Guid, name: bytes)
  {
    (guid == GLOBAL_VARIABLE_GUID && (name == PK_NAME || name == KEK_NAME))
    || (guid == IMAGE_SECURITY_DATABASE_GUID && (name == DB_NAME || name == DBX_NAME))
  }

  /** Registered boot-option names are 16 bytes long, so they differ from
      every other registered name. */
  lemma BootOptionNameLength(name: bytes)
    requires DP.IsBootOptionName(name)
    ensures |name| == 16
  {
    var order: nat :| order < 0xFFFF && DP.BootName(order) == name;
  }

  /** `lookup_variable_handler` over the registrations made by the
      device-path and secure-boot modules; every other (GUID, name) pair
      gets the unknown decoder. */
  function LookupVariableHandler(guid: Guid, name: bytes): (h: VariableHandler)
    ensures h == BootOptionHandler <==> guid == GLOBAL_VARIABLE_GUID && DP.IsBootOptionName(name)
    ensures h == BootOrderHandler <==> guid == GLOBAL_VARIABLE_GUID && name == BOOT_ORDER_NAME
    ensures h == SecureBootHandler <==> guid == GLOBAL_VARIABLE_GUID && name == SECURE_BOOT_NAME
    ensures h == SignaturesHandler <==> IsSignatureDatabase(guid, name)
  {
    if guid == GLOBAL_VARIABLE_GUID && DP.IsBootOptionName(name) then
      BootOptionNameLength(name);
      BootOptionHandler
    else if guid == GLOBAL_VARIABLE_GUID && name == BOOT_ORDER_NAME then BootOrderHandler
    else if guid == GLOBAL_VARIABLE_GUID && name == SECURE_BOOT_NAME then SecureBootHandler
    else if IsSignatureDatabase(guid, name) then SignaturesHandler
    else UnknownVariableHandler
  }

  /** `Boot0000` … `BootFFFE` select the load-option decoder; `BootFFFF`
      falls back to the unknown decoder. */
  lemma BootVariableLookup(order: nat)
    requires order < 0x1_0000
    ensures LookupVariableHandler(GLOBAL_VARIABLE_GUID, DP.BootName(order))
            == if order < 0xFFFF then BootOptionHandler else UnknownVariableHandler
  {
    if order < 0xFFFF {
      DP.BootOptionRegistered(order);
    } else {
      DP.BootFFFFNotRegistered();
      assert |DP.BootName(order)| != |BOOT_ORDER_NAME|;
    }
  }

  /** A decoded UEFI variable. */
  datatype Variable =
    | BootOptionVariable(option: DP.LoadOption)
    | BootOrderVariable(bootOrder: seq<nat>)
    | SecureBootVariable(enabled: bool)
    | SignaturesVariable(signatureLists: seq<SB.SignatureList>)
    | UnknownVariable(data: bytes)

  /** The variable decoder a handler names, run on the variable data from
      `off`. None of them checks that the data is used up. */
  function DecodeVariable(h: VariableHandler, data: bytes, off: nat): (r: Step<Variable>)
    requires off <= |data|
    ensures r.Ok? ==> r.value.1 <= |data|
    ensures h == UnknownVariableHandler ==> r == Ok((UnknownVariable(data[off..]), |data|))
    ensures h == BootOrderHandler ==> (r.Ok? <==> (|data| - off) % 2 == 0)
    ensures h == SecureBootHandler ==> (r.Ok? <==> off < |data|)
    ensures h == BootOptionHandler ==> (r.Ok? <==> DP.BootVariable(data, off).Ok?)
    ensures h == SignaturesHandler ==> (r.Ok? <==> SB.SignaturesVariable(data, off).Ok?)
    ensures h == BootOptionHandler && r.Ok?
            ==> r.value.0.BootOptionVariable? && DP.BootVariable(data, off) == Ok((r.value.0.option, r.value.1))
    ensures h == BootOrderHandler && r.Ok?
            ==> r.value.0.BootOrderVariable? && DP.BootOrder(data, off) == Ok((r.value.0.bootOrder, r.value.1))
    ensures h == SecureBootHandler && r.Ok?
            ==> r.value.0.SecureBootVariable? && SB.SecureBootVariable(data, off) == Ok((r.value.0.enabled, r.value.1))
    ensures h == SignaturesHandler && r.Ok?
            ==> r.value.0.SignaturesVariable?
                && SB.SignaturesVariable(data, off) == Ok((r.value.0.signatureLists, r.value.1))
  {
    match h
    case BootOptionHandler =>
      var (option, next) :- DP.BootVariable(data, off);
      Ok((BootOptionVariable(option), next))
    case BootOrderHandler =>
      DP.BootOrderRunSpec(data, off, []);
      var (order, next) :- DP.BootOrder(data, off);
      Ok((BootOrderVariable(order), next))
    case SecureBootHandler =>
      var (enabled, next) :- SB.SecureBootVariable(data, off);
      Ok((SecureBootVariable(enabled), next))
    case SignaturesHandler =>
      var (lists, next) :- SB.SignaturesVariable(data, off);
      Ok((SignaturesVariable(lists), next))
    case UnknownVariableHandler =>
      var (rest, next) := B.GetRest(data, off);
      Ok((UnknownVariable(rest), next))
  }

  // ------------------------------------------------------------ GPT tables

  /** The GPT header (UEFI Specification, section 5.3.2) as the event records it. */
  datatype PartitionHeader = PartitionHeader(
    signature: nat, revision: nat, headerSize: nat, headerCrc32: nat,
    myLba: nat, alternateLba: nat, firstUsableLba: nat, lastUsableLba: nat,
    diskGuid: Guid, partitionEntryLba: nat, numberOfPartitionEntries: nat,
    sizeOfPartitionEntry: nat, partitionEntryArrayCrc32: nat)

  /** The header fields up to the first LBA pair: signature, revision,
      header size, header CRC, a reserved uint32, my LBA and the alternate LBA. */
  function PartitionHeaderStart(data: bytes, off: nat): (r: Step<(nat, nat, nat, nat, nat, nat)>)
    requires off <= |data|
    ensures r.Ok? <==> off + 40 <= |data|
    ensures r.Ok? ==> r.value.1 == off + 40
  {
    var (signature, o1) :- B.GetInt(data, off, 8);
    var (revision, o2) :- B.GetUint32(data, o1);
    var (headerSize, o3) :- B.GetUint32(data, o2);
    var (headerCrc32, o4) :- B.GetUint32(data, o3);
    var (_, o5) :- B.GetUint32(data, o4);
    var (myLba, o6) :- B.GetInt(data, o5, 8);
    var (alternateLba, o7) :- B.GetInt(data, o6, 8);
    Ok(((signature, revision, headerSize, headerCrc32, myLba, alternateLba), o7))
  }

  /** `UEFIPartitionHeader.parse`: 92 bytes; the disk GUID at bytes 56..72
      and the entry count at bytes 80..84. */
  function PartitionHeaderFields(data: bytes, off: nat): (r: Step<PartitionHeader>)
    requires off <= |data|
    ensures r.Ok? <==> off + 92 <= |data|
    ensures r.Ok? ==> r.value.1 == off + 92 && r.value.0.diskGuid == data[off + 56..off + 72]
                      && r.value.0.numberOfPartitionEntries == LittleEndian(data[off + 80..off + 84])
  {
    var (start, o1) :- PartitionHeaderStart(data, off);
    var (signature, revision, headerSize, headerCrc32, myLba, alternateLba) := start;
    var (firstUsableLba, o2) :- B.GetInt(data, o1, 8);
    var (lastUsableLba, o3) :- B.GetInt(data, o2, 8);
    var (diskGuid, o4) :- B.GetGuid(data, o3);
    var (partitionEntryLba, o5) :- B.GetInt(data, o4, 8);
    var (count, o6) :- B.GetUint32(data, o5);
    var (entrySize, o7) :- B.GetUint32(data, o6);
    var (arrayCrc32, o8) :- B.GetUint32(data, o7);
    Ok((PartitionHeader(signature, revision, headerSize, headerCrc32, myLba, alternateLba,
                        firstUsableLba, lastUsableLba, diskGuid, partitionEntryLba, count,
                        entrySize, arrayCrc32), o8))
  }

  /** The first header fields are the little-endian values of their bytes:
      signature 0..8, revision 8..12, header size 12..16, header CRC
      16..20, my LBA 24..32 and the alternate LBA 32..40. */
  lemma PartitionHeaderStartValue(data: bytes, off: nat)
    requires off + 40 <= |data|
    ensures PartitionHeaderStart(data, off).value.0
            == (LittleEndian(data[off..off + 8]), LittleEndian(data[off + 8..off + 12]),
                LittleEndian(data[off + 12..off + 16]), LittleEndian(data[off + 16..off + 20]),
                LittleEndian(data[off + 24..off + 32]), LittleEndian(data[off + 32..off + 40]))
  {
  }

  /** Every field of a decoded GPT header is read from its own bytes: the
      fields of `PartitionHeaderStart`, then first and last usable LBA at
      40..48 and 48..56, the disk GUID at 56..72, the entry-array LBA at
      72..80, entry count, entry size and entry-array CRC at 80..84,
      84..88 and 88..92. */
  lemma PartitionHeaderFieldsValue(data: bytes, off: nat)
    requires off + 92 <= |data|
    ensures var h := PartitionHeaderFields(data, off).value.0;
            && (h.signature, h.revision, h.headerSize, h.headerCrc32, h.myLba, h.alternateLba)
               == PartitionHeaderStart(data, off).value.0
            && h.firstUsableLba == LittleEndian(data[off + 40..off + 48])
            && h.lastUsableLba == LittleEndian(data[off + 48..off + 56])
            && h.diskGuid == data[off + 56..off + 72]
            && h.partitionEntryLba == LittleEndian(data[off + 72..off + 80])
            && h.numberOfPartitionEntries == LittleEndian(data[off + 80..off + 84])
            && h.sizeOfPartitionEntry == LittleEndian(data[off + 84..off + 88])
            && h.partitionEntryArrayCrc32 == LittleEndian(data[off + 88..off + 92])
  {
    var start := PartitionHeaderStart(data, off);
    assert start.Ok? && start.value.1 == off + 40;
    var first := B.GetInt(data, off + 40, 8);
    var last := B.GetInt(data, off + 48, 8);
    var guid := B.GetGuid(data, off + 56);
    var entryLba := B.GetInt(data, off + 72, 8);
    var count := B.GetUint32(data, off + 80);
    var entrySize := B.GetUint32(data, off + 84);
    var arrayCrc := B.GetUint32(data, off + 88);
    assert first.Ok? && last.Ok? && guid.Ok? && entryLba.Ok? && count.Ok? && entrySize.Ok? && arrayCrc.Ok?;
    var (signature, revision, headerSize, headerCrc32, myLba, alternateLba) := start.value.0;
    assert PartitionHeaderFields(data, off).value.0
           == PartitionHeader(signature, revision, headerSize, headerCrc32, myLba, alternateLba,
                              first.value.0, last.value.0, guid.value.0, entryLba.value.0, count.value.0,
                              entrySize.value.0, arrayCrc.value.0);
  }

  /** A GPT partition entry (UEFI Specification, section 5.3.3). */
  datatype PartitionEntry = PartitionEntry(
    partitionTypeGuid: Guid, uniquePartitionGuid: Guid, startingLba: nat, endingLba: nat,
    attributes: nat, partitionName: bytes)

  /** `UEFIPartitionEntry.parse`: two GUIDs, three 8-byte fields and a
      72-byte name, 128 bytes. */
  function PartitionEntryFields(data: bytes, off: nat): (r: Step<PartitionEntry>)
    requires off <= |data|
    ensures r.Ok? <==> off + 128 <= |data|
    ensures r.Ok? ==> r.value.1 == off + 128
                      && r.value.0.partitionTypeGuid == data[off..off + 16]
                      && r.value.0.uniquePartitionGuid == data[off + 16..off + 32]
                      && r.value.0.partitionName == data[off + 56..off + 128]
  {
    var (typeGuid, o1) :- B.GetGuid(data, off);
    var (uniqueGuid, o2) :- B.GetGuid(data, o1);
    var (startingLba, o3) :- B.GetInt(data, o2, 8);
    var (endingLba, o4) :- B.GetInt(data, o3, 8);
    var (attributes, o5) :- B.GetInt(data, o4, 8);
    var (name, o6) :- B.GetBytes(data, o5, 36 * 2);
    Ok((PartitionEntry(typeGuid, uniqueGuid, startingLba, endingLba, attributes, name), o6))
  }

  /** The LBAs and attributes of a decoded partition entry are the
      little-endian values of bytes 32..40, 40..48 and 48..56. */
  lemma PartitionEntryFieldsValue(data: bytes, off: nat)
    requires off + 128 <= |data|
    ensures var e := PartitionEntryFields(data, off).value.0;
            && e.startingLba == LittleEndian(data[off + 32..off + 40])
            && e.endingLba == LittleEndian(data[off + 40..off + 48])
            && e.attributes == LittleEndian(data[off + 48..off + 56])
  {
  }

  /** The GPT event's entry loop: `count` entries, counting down. */
  function PartitionEntryRun(data: bytes, off: nat, count: nat, acc: seq<PartitionEntry>): (r: Step<seq<PartitionEntry>>)
    requires off <= |data|
    decreases count
    ensures r.Ok? <==> off + 128 * count <= |data|
    ensures r.Ok? ==> r.value.1 == off + 128 * count
                      && |r.value.0| == |acc| + count && r.value.0[..|acc|] == acc
  {
    if count == 0 then Ok((acc, off))
    else
      var (entry, next) :- PartitionEntryFields(data, off);
      PartitionEntryRun(data, next, count - 1, acc + [entry])
  }

  /** One turn of the entry loop: the first entry read is the one at `off`,
      and the rest of the loop starts 128 bytes later. */
  lemma PartitionEntryRunStep(data: bytes, off: nat, count: nat, acc: seq<PartitionEntry>)
    requires count > 0 && off + 128 * count <= |data|
    ensures PartitionEntryFields(data, off).Ok?
    ensures var e := PartitionEntryFields(data, off).value.0;
            var r := PartitionEntryRun(data, off, count, acc);
            r == PartitionEntryRun(data, off + 128, count - 1, acc + [e]) && r.Ok? && r.value.0[|acc|] == e
  {
    var e := PartitionEntryFields(data, off).value.0;
    var r' := PartitionEntryRun(data, off + 128, count - 1, acc + [e]);
    assert r'.value.0[|acc|] == r'.value.0[..|acc + [e]|][|acc|];
  }

  /** Entry `i` of the loop is the partition entry at byte `at`, `128 * i`
      bytes after the start. */
  lemma {:induction false} PartitionEntryRunEntry(data: bytes, off: nat, count: nat, acc: seq<PartitionEntry>, i: nat, at: nat)
    requires off + 128 * count <= |data| && i < count && at == off + 128 * i
    ensures var r := PartitionEntryRun(data, off, count, acc);
            r.Ok? && PartitionEntryFields(data, at) == Ok((r.value.0[|acc| + i], at + 128))
    decreases i
  {
    PartitionEntryRunStep(data, off, count, acc);
    if i > 0 {
      var e := PartitionEntryFields(data, off).value.0;
      var acc' := acc + [e];
      assert |acc'| + (i - 1) == |acc| + i;
      PartitionEntryRunEntry(data, off + 128, count - 1, acc', i - 1, at);
    }
  }

  /** The handoff-tables loop: `count` (GUID, table address) entries. */
  function HandoffRun(data: bytes, off: nat, count: nat, acc: seq<(Guid, nat)>): (r: Step<seq<(Guid, nat)>>)
    requires off <= |data|
    decreases count
    ensures r.Ok? <==> off + 24 * count <= |data|
    ensures r.Ok? ==> r.value.1 == off + 24 * count
                      && |r.value.0| == |acc| + count && r.value.0[..|acc|] == acc
  {
    if count == 0 then Ok((acc, off))
    else
      var (guid, o1) :- B.GetGuid(data, off);
      var (table, o2) :- B.GetInt(data, o1, 8);
      HandoffRun(data, o2, count - 1, acc + [(guid, table)])
  }

  /** Entry `i` of the loop is the GUID and 8-byte table address at byte `24 * i`. */
  lemma {:induction false} HandoffRunEntry(data: bytes, off: nat, count: nat, acc: seq<(Guid, nat)>, i: nat)
    requires off + 24 * count <= |data| && i < count
    ensures var r := HandoffRun(data, off, count, acc);
            var at := off + 24 * i;
            r.Ok? && r.value.0[|acc| + i] == (data[at..at + 16], LittleEndian(data[at + 16..at + 24]))
    decreases i
  {
    var e := (data[off..off + 16], LittleEndian(data[off + 16..off + 24]));
    var next := off + 24;
    var r := HandoffRun(data, off, count, acc);
    var r' := HandoffRun(data, next, count - 1, acc + [e]);
    assert r == r';
    if i > 0 {
      HandoffRunEntry(data, next, count - 1, acc + [e], i - 1);
      assert off + 24 * i == next + 24 * (i - 1);
      assert r.value.0[|acc| + i] == r'.value.0[|acc + [e]| + (i - 1)];
    } else {
      assert r'.value.0[..|acc + [e]|] == acc + [e];
      assert r.value.0[|acc|] == (acc + [e])[|acc|];
    }
  }

  // ------------------------------------------------------- event payloads

  /** The common event fields every decoded event carries. */
  datatype EventHeader = EventHeader(pcr: nat, eventType: int, digests: map<DigestAlgorithm, bytes>)

  /** The payload of a decoded event, one arm per registered handler. */
  datatype Payload =
    | CrtmContents(blobDescription: bytes, blobBase: nat, blobLength: nat)
    | CrtmVersion(versionString: bytes)
    | FirmwareBlob(blobBase: nat, blobLength: nat)
    | VariableData(variableName: Guid, unicodeName: bytes, variableData: Variable)
    | Separator(separator: bytes)
    | EfiAction(action: bytes)
    | BootServicesApplication(imageLocationInMemory: nat, imageLengthInMemory: nat,
                              imageLinkTimeAddress: nat, devicePath: seq<DP.DevicePathNode>)
    | Ipl(ipl: bytes)
    | PostCode(postCode: bytes)
    | HandoffTables(tableEntries: seq<(Guid, nat)>)
    | EventTag(taggedEventId: nat, taggedEventData: bytes)
    | Gpt(partitionHeader: PartitionHeader, partitionEntries: seq<PartitionEntry>)
    | VariableAuthority(authority: SB.VariableAuthority)
    | UnknownPayload(eventData: bytes)

  datatype Event = Event(header: EventHeader, payload: Payload)

  /** `UEFI_EV_S_CRTM_ContentsEvent.parse`: a 1-byte description size, the
      description, then the 8-byte blob base and length. */
  function CrtmContentsEvent(data: bytes, off: nat): (r: Step<Payload>)
    requires off <= |data|
    ensures r.Ok? <==> off < |data| && off + 1 + data[off] as int + 16 <= |data|
    ensures r.Ok? ==> var ds := data[off] as int;
                      r.value.1 == off + 1 + ds + 16
                      && r.value.0 == CrtmContents(data[off + 1..off + 1 + ds],
                                                   LittleEndian(data[off + 1 + ds..off + 9 + ds]),
                                                   LittleEndian(data[off + 9 + ds..off + 17 + ds]))
  {
    var (ds, o1) :- B.GetInt(data, off, 1);
    assert data[off..o1] == [data[off]];
    var (description, o2) :- B.GetBytes(data, o1, ds);
    var (blobBase, o3) :- B.GetInt(data, o2, 8);
    var (blobLength, o4) :- B.GetInt(data, o3, 8);
    Ok((CrtmContents(description, blobBase, blobLength), o4))
  }

  /** `UEFI_EV_EFI_PlatformFirmwareBlobEvent.parse`: blob base and length, 16 bytes. */
  function FirmwareBlobEvent(data: bytes, off: nat): (r: Step<Payload>)
    requires off <= |data|
    ensures r.Ok? <==> off + 16 <= |data|
    ensures r.Ok? ==> r.value == (FirmwareBlob(LittleEndian(data[off..off + 8]), LittleEndian(data[off + 8..off + 16])),
                                  off + 16)
  {
    var (blobBase, o1) :- B.GetInt(data, off, 8);
    var (blobLength, o2) :- B.GetInt(data, o1, 8);
    Ok((FirmwareBlob(blobBase, blobLength), o2))
  }

  /** `UEFIVariableDataEvent.parse`: the variable record, its data decoded by
      the decoder registered for (GUID, name), and no payload bytes left. */
  function VariableDataEvent(data: bytes, off: nat): (r: Step<Payload>)
    requires off <= |data|
    ensures var v := B.VariableRecordFields(data, off);
            r.Ok? <==> v.Ok? && v.value.1 == |data|
                       && DecodeVariable(LookupVariableHandler(v.value.0.variableName, v.value.0.unicodeName),
                                         v.value.0.variableData, 0).Ok?
    ensures var v := B.VariableRecordFields(data, off);
            v.Err? ==> r == Err(v.error)
    ensures var v := B.VariableRecordFields(data, off);
            v.Ok? ==> var d := DecodeVariable(LookupVariableHandler(v.value.0.variableName, v.value.0.unicodeName),
                                              v.value.0.variableData, 0);
                      d.Err? ==> r == Err(d.error)
    ensures r.Ok? ==> r.value.1 == |data|
    ensures r.Ok? ==> var v := B.VariableRecordFields(data, off);
                      v.Ok? && v.value.1 == |data|
                      && var d := DecodeVariable(LookupVariableHandler(v.value.0.variableName, v.value.0.unicodeName),
                                                 v.value.0.variableData, 0);
                      d.Ok? && r.value.0 == VariableData(v.value.0.variableName, v.value.0.unicodeName, d.value.0)
    ensures var v := B.VariableRecordFields(data, off);
            v.Ok? && v.value.1 < |data|
            && DecodeVariable(LookupVariableHandler(v.value.0.variableName, v.value.0.unicodeName),
                              v.value.0.variableData, 0).Ok?
            ==> r == Err(NotConsumed(|data| - v.value.1))
  {
    var (v, next) :- B.VariableRecordFields(data, off);
    var handler := LookupVariableHandler(v.variableName, v.unicodeName);
    var (variable, _) :- DecodeVariable(handler, v.variableData, 0);
    if next < |data| then Err(NotConsumed(|data| - next))
    else Ok((VariableData(v.variableName, v.unicodeName, variable), next))
  }

  /** The fixed part of a boot-services application event: image location,
      image length, link-time address and device-path length, 8 bytes each. */
  function ImageFields(data: bytes, off: nat): (r: Step<(nat, nat, nat, nat)>)
    requires off <= |data|
    ensures r.Ok? <==> off + 32 <= |data|
    ensures r.Ok? ==> r.value == ((LittleEndian(data[off..off + 8]), LittleEndian(data[off + 8..off + 16]),
                                   LittleEndian(data[off + 16..off + 24]), LittleEndian(data[off + 24..off + 32])),
                                  off + 32)
  {
    var (location, o1) :- B.GetInt(data, off, 8);
    var (length, o2) :- B.GetInt(data, o1, 8);
    var (linkTime, o3) :- B.GetInt(data, o2, 8);
    var (dpl, o4) :- B.GetInt(data, o3, 8);
    Ok(((location, length, linkTime, dpl), o4))
  }

  /** `UEFI_EF_EFI_BootServicesApplicationEvent.parse`: the fixed fields,
      and the device paths decoded from exactly the announced number of bytes. */
  function BootServicesApplicationEvent(data: bytes, off: nat): (r: Step<Payload>)
    requires off <= |data|
    ensures r.Ok? ==> off + 32 <= r.value.1 <= |data| && r.value.0.BootServicesApplication?
  {
    var ((location, length, linkTime, dpl), o4) :- ImageFields(data, off);
    var (dpData, o5) :- B.GetBytes(data, o4, dpl);
    var (paths, _) :- DP.ParseDevicePath(dpData, 0);
    Ok((BootServicesApplication(location, length, linkTime, paths), o5))
  }

  /** The event decodes exactly when its 32 fixed bytes and the device-path
      bytes they announce are there and those bytes decode; it then holds
      the image location, length and link-time address as read and the
      decoded device paths, and ends after them. */
  lemma BootServicesApplicationValue(data: bytes, off: nat)
    requires off + 32 <= |data|
    ensures var dpl := LittleEndian(data[off + 24..off + 32]);
            BootServicesApplicationEvent(data, off).Ok? <==>
              off + 32 + dpl <= |data| && DP.ParseDevicePath(data[off + 32..off + 32 + dpl], 0).Ok?
    ensures var dpl := LittleEndian(data[off + 24..off + 32]);
            BootServicesApplicationEvent(data, off).Ok? && off + 32 + dpl <= |data|
            && DP.ParseDevicePath(data[off + 32..off + 32 + dpl], 0).Ok? ==>
              BootServicesApplicationEvent(data, off).value
              == (BootServicesApplication(LittleEndian(data[off..off + 8]),
                                          LittleEndian(data[off + 8..off + 16]),
                                          LittleEndian(data[off + 16..off + 24]),
                                          DP.ParseDevicePath(data[off + 32..off + 32 + dpl], 0).value.0),
                  off + 32 + dpl)
  {
    var fields := ImageFields(data, off);
    var n := fields.value.0.3;
    if off + 32 + n <= |data| {
      assert B.GetBytes(data, off + 32, n) == Ok((data[off + 32..off + 32 + n], off + 32 + n));
    }
  }

  /** `UEFI_EV_EFI_HandoffTablesEvent.parse`: an 8-byte table count and that
      many 24-byte entries, in input order. */
  function HandoffTablesEvent(data: bytes, off: nat): (r: Step<Payload>)
    requires off <= |data|
    ensures r.Ok? <==> off + 8 <= |data| && off + 8 + 24 * LittleEndian(data[off..off + 8]) <= |data|
    ensures r.Ok? ==> var n := LittleEndian(data[off..off + 8]);
                      r.value.1 == off + 8 + 24 * n && r.value.0 == HandoffTables(HandoffRun(data, off + 8, n, []).value.0)
                      && |r.value.0.tableEntries| == n
  {
    var (count, o1) :- B.GetInt(data, off, 8);
    var (entries, o2) :- HandoffRun(data, o1, count, []);
    Ok((HandoffTables(entries), o2))
  }

  /** `UEFI_EV_EventTagEvent.parse`: a uint32 id, a uint32 length and that many bytes. */
  function EventTagEvent(data: bytes, off: nat): (r: Step<Payload>)
    requires off <= |data|
    ensures r.Ok? <==> off + 8 <= |data| && off + 8 + LittleEndian(data[off + 4..off + 8]) <= |data|
    ensures r.Ok? ==> var n := LittleEndian(data[off + 4..off + 8]);
                      r.value == (EventTag(LittleEndian(data[off..off + 4]), data[off + 8..off + 8 + n]), off + 8 + n)
  {
    var (id, o1) :- B.GetUint32(data, off);
    var (n, o2) :- B.GetUint32(data, o1);
    var (tagged, o3) :- B.GetBytes(data, o2, n);
    Ok((EventTag(id, tagged), o3))
  }

  /** `UEFI_EV_EFI_GPTEvent.parse`: the 92-byte header, an 8-byte partition
      count and that many 128-byte entries. */
  function GptEvent(data: bytes, off: nat): (r: Step<Payload>)
    requires off <= |data|
    ensures r.Ok? <==> off + 100 <= |data| && off + 100 + 128 * LittleEndian(data[off + 92..off + 100]) <= |data|
    ensures r.Ok? ==> var n := LittleEndian(data[off + 92..off + 100]);
                      r.value.1 == off + 100 + 128 * n && r.value.0.Gpt?
                      && r.value.0.partitionHeader == PartitionHeaderFields(data, off).value.0
                      && r.value.0.partitionEntries == PartitionEntryRun(data, off + 100, n, []).value.0
                      && |r.value.0.partitionEntries| == n
  {
    var (header, o1) :- PartitionHeaderFields(data, off);
    var (count, o2) :- B.GetInt(data, o1, 8);
    var (entries, o3) :- PartitionEntryRun(data, o2, count, []);
    Ok((Gpt(header, entries), o3))
  }

  // ------------------------------------------------------- handler registry

  /** The event decoders that can be registered. */
  datatype EventHandler =
    | CrtmContentsHandler | CrtmVersionHandler | FirmwareBlobHandler | VariableDataHandler
    | SeparatorHandler | EfiActionHandler | BootServicesApplicationHandler | IplHandler
    | PostCodeHandler | HandoffTablesHandler | EventTagHandler | GptHandler
    | VariableAuthorityHandler | UnknownEventHandler

  /** Handlers registered for an (event type, pcr) pair. */
  const PCR_HANDLERS: map<(int, int), EventHandler> := map[
    (B.EV_S_CRTM_CONTENTS, 0) := CrtmContentsHandler,
    (B.EV_S_CRTM_VERSION, 0) := CrtmVersionHandler,
    (B.EV_EFI_PLATFORM_FIRMWARE_BLOB, 0) := FirmwareBlobHandler,
    (B.EV_EFI_PLATFORM_FIRMWARE_BLOB, 2) := FirmwareBlobHandler,
    (B.EV_EFI_PLATFORM_FIRMWARE_BLOB, 4) := FirmwareBlobHandler,
    (B.EV_EFI_VARIABLE_AUTHORITY, 7) := VariableAuthorityHandler]

  /** Handlers registered for an event type whatever the pcr. */
  const TYPE_HANDLERS: map<int, EventHandler> := map[
    B.EV_EFI_VARIABLE_DRIVER_CONFIG := VariableDataHandler,
    B.EV_EFI_VARIABLE_BOOT := VariableDataHandler,
    B.EV_SEPARATOR := SeparatorHandler,
    B.EV_EFI_ACTION := EfiActionHandler,
    B.EV_EFI_BOOT_SERVICES_APPLICATION := BootServicesApplicationHandler,
    B.EV_IPL := IplHandler,
    B.EV_POST_CODE := PostCodeHandler,
    B.EV_EFI_HANDOFF_TABLES := HandoffTablesHandler,
    B.EV_EVENT_TAG := EventTagHandler,
    B.EV_EFI_GPT_EVENT := GptHandler]

  /** `lookup_event_handler`: the (type, pcr) handler if one is
      registered, else the type's handler, else the unknown decoder. */
  function LookupEventHandler(eventType: int, pcr: int): (h: EventHandler)
    ensures (eventType, pcr) in PCR_HANDLERS ==> h == PCR_HANDLERS[(eventType, pcr)]
    ensures (eventType, pcr) !in PCR_HANDLERS && eventType in TYPE_HANDLERS ==> h == TYPE_HANDLERS[eventType]
    ensures h == UnknownEventHandler <==> (eventType, pcr) !in PCR_HANDLERS && eventType !in TYPE_HANDLERS
  {
    if (eventType, pcr) in PCR_HANDLERS then PCR_HANDLERS[(eventType, pcr)]
    else if eventType in TYPE_HANDLERS then TYPE_HANDLERS[eventType]
    else UnknownEventHandler
  }

  /** No event type is registered both with and without a pcr. */
  lemma RegistriesDisjoint()
    ensures forall k | k in PCR_HANDLERS :: k.0 !in TYPE_HANDLERS
  {
  }

  /** The S-CRTM events are decoded only at pcr 0. */
  lemma CrtmLookup(pcr: int)
    ensures LookupEventHandler(B.EV_S_CRTM_CONTENTS, pcr)
            == if pcr == 0 then CrtmContentsHandler else UnknownEventHandler
    ensures LookupEventHandler(B.EV_S_CRTM_VERSION, pcr)
            == if pcr == 0 then CrtmVersionHandler else UnknownEventHandler
  {
  }

  /** The firmware blob is decoded at pcr 0, 2 and 4 only; at pcr 1 it
      falls back to the unknown decoder. */
  lemma FirmwareBlobLookup(pcr: int)
    ensures LookupEventHandler(B.EV_EFI_PLATFORM_FIRMWARE_BLOB, pcr)
            == if pcr == 0 || pcr == 2 || pcr == 4 then FirmwareBlobHandler else UnknownEventHandler
  {
  }

  /** The variable-authority event is decoded at pcr 7 only. */
  lemma VariableAuthorityLookup(pcr: int)
    ensures LookupEventHandler(B.EV_EFI_VARIABLE_AUTHORITY, pcr)
            == if pcr == 7 then VariableAuthorityHandler else UnknownEventHandler
  {
  }

  /** A type-only registration applies at every pcr. */
  lemma TypeOnlyLookup(eventType: int, pcr: int, other: int)
    requires eventType in TYPE_HANDLERS
    ensures LookupEventHandler(eventType, pcr) == LookupEventHandler(eventType, other) == TYPE_HANDLERS[eventType]
  {
    RegistriesDisjoint();
  }

  /** The decoder a handler names, run on the payload from `off`. Decoders
      that keep their bytes take all that remain; none but the variable
      events checks that the payload is used up. */
  function DecodePayload(h: EventHandler, data: bytes, off: nat): (r: Step<Payload>)
    requires off <= |data|
    ensures r.Ok? ==> r.value.1 <= |data|
    ensures h == UnknownEventHandler ==> r == Ok((UnknownPayload(data[off..]), |data|))
    ensures h == CrtmVersionHandler ==> r == Ok((CrtmVersion(data[off..]), |data|))
    ensures h == SeparatorHandler ==> r == Ok((Separator(data[off..]), |data|))
    ensures h == EfiActionHandler ==> r == Ok((EfiAction(data[off..]), |data|))
    ensures h == IplHandler ==> r == Ok((Ipl(data[off..]), |data|))
    ensures h == PostCodeHandler ==> r == Ok((PostCode(data[off..]), |data|))
  {
    match h
    case CrtmContentsHandler => CrtmContentsEvent(data, off)
    case CrtmVersionHandler => var (b, next) := B.GetRest(data, off); Ok((CrtmVersion(b), next))
    case FirmwareBlobHandler => FirmwareBlobEvent(data, off)
    case VariableDataHandler => VariableDataEvent(data, off)
    case SeparatorHandler => var (b, next) := B.GetRest(data, off); Ok((Separator(b), next))
    case EfiActionHandler => var (b, next) := B.GetRest(data, off); Ok((EfiAction(b), next))
    case BootServicesApplicationHandler => BootServicesApplicationEvent(data, off)
    case IplHandler => var (b, next) := B.GetRest(data, off); Ok((Ipl(b), next))
    case PostCodeHandler => var (b, next) := B.GetRest(data, off); Ok((PostCode(b), next))
    case HandoffTablesHandler => HandoffTablesEvent(data, off)
    case EventTagHandler => EventTagEvent(data, off)
    case GptHandler => GptEvent(data, off)
    case VariableAuthorityHandler =>
      var (authority, next) :- SB.VariableAuthorityEvent(data, off);
      Ok((VariableAuthority(authority), next))
    case UnknownEventHandler => var (b, next) := B.GetRest(data, off); Ok((UnknownPayload(b), next))
  }

  // ------------------------------------------------------------ the record

  /** The fields `parse_event` reads before the payload: pcr, the event type
      (which must be a `UEFIEventType`) and the digest list, read with the
      context's digest sizes. */
  function EventHeaderFields(data: bytes, off: nat, ctx: B.Context): (r: Step<EventHeader>)
    requires off <= |data|
    ensures r.Ok? <==> off + 8 <= |data| && LittleEndian(data[off + 4..off + 8]) in B.EVENT_TYPES
                       && B.GetDigests(data, off + 8, ctx.digestSizes).Ok?
    ensures off + 8 > |data| ==> r.Err? && r.error.ShortBuffer?
    ensures off + 8 <= |data| && LittleEndian(data[off + 4..off + 8]) in B.EVENT_TYPES
            && B.GetDigests(data, off + 8, ctx.digestSizes).Err?
            ==> r == Err(B.GetDigests(data, off + 8, ctx.digestSizes).error)
    ensures off + 8 <= |data| && LittleEndian(data[off + 4..off + 8]) !in B.EVENT_TYPES
            ==> r == Err(UnexpectedType(LittleEndian(data[off + 4..off + 8]), B.EVENT_TYPES))
    ensures r.Ok? ==> off + 8 <= |data| && r.value.0.eventType in B.EVENT_TYPES
                      && r.value.0.pcr == LittleEndian(data[off..off + 4])
                      && r.value.0.eventType == LittleEndian(data[off + 4..off + 8])
                      && B.GetDigests(data, off + 8, ctx.digestSizes) == Ok((r.value.0.digests, r.value.1))
  {
    var (pcr, o1) :- B.GetUint32(data, off);
    var (code, o2) :- B.GetUint32(data, o1);
    var eventType :- B.EventType(code);
    var (digests, o3) :- B.GetDigests(data, o2, ctx.digestSizes);
    Ok((EventHeader(pcr, eventType, digests), o3))
  }

  /** `parse_event()`: the header fields, then exactly the uint32-prefixed
      payload, decoded by the handler looked up for (type, pcr). */
  function ParseEvent(data: bytes, off: nat, ctx: B.Context): (r: Step<Event>)
    requires off <= |data|
    ensures var h := EventHeaderFields(data, off, ctx);
            r.Ok? <==> h.Ok? && var p := B.GetLenBytes(data, h.value.1);
                       p.Ok? && DecodePayload(LookupEventHandler(h.value.0.eventType, h.value.0.pcr), p.value.0, 0).Ok?
    ensures var h := EventHeaderFields(data, off, ctx);
            h.Err? ==> r == Err(h.error)
    ensures var h := EventHeaderFields(data, off, ctx);
            h.Ok? && B.GetLenBytes(data, h.value.1).Err? ==> r == Err(B.GetLenBytes(data, h.value.1).error)
    ensures var h := EventHeaderFields(data, off, ctx);
            h.Ok? && B.GetLenBytes(data, h.value.1).Ok?
            ==> var d := DecodePayload(LookupEventHandler(h.value.0.eventType, h.value.0.pcr),
                                       B.GetLenBytes(data, h.value.1).value.0, 0);
                d.Err? ==> r == Err(d.error)
    ensures r.Ok? ==> var h := EventHeaderFields(data, off, ctx);
                      h.Ok? && r.value.0.header == h.value.0
                      && var p := B.GetLenBytes(data, h.value.1);
                      p.Ok? && r.value.1 == p.value.1
                      && var d := DecodePayload(LookupEventHandler(h.value.0.eventType, h.value.0.pcr), p.value.0, 0);
                      d.Ok? && r.value.0.payload == d.value.0
  {
    var (header, o1) :- EventHeaderFields(data, off, ctx);
    var (payload, o2) :- B.GetLenBytes(data, o1);
    var handler := LookupEventHandler(header.eventType, header.pcr);
    var (decoded, _) :- DecodePayload(handler, payload, 0);
    Ok((Event(header, decoded), o2))
  }

  /** An event with no registered handler keeps its whole payload as bytes. */
  lemma UnknownEventKeepsPayload(data: bytes, off: nat, ctx: B.Context)
    requires off <= |data|
    requires var h := EventHeaderFields(data, off, ctx);
             h.Ok? && LookupEventHandler(h.value.0.eventType, h.value.0.pcr) == UnknownEventHandler
             && B.GetLenBytes(data, h.value.1).Ok?
    ensures var h := EventHeaderFields(data, off, ctx).value;
            ParseEvent(data, off, ctx) == Ok((Event(h.0, UnknownPayload(B.GetLenBytes(data, h.1).value.0)),
                                              B.GetLenBytes(data, h.1).value.1))
  {
  }
}
