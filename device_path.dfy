/** UEFI device paths (UEFI Specification, section 10.3) and the two boot
    manager variables built on them, EFI_LOAD_OPTION (`Boot####`, section
    3.1.3) and `BootOrder`, as pure decoding steps over a buffer. Node bodies
    and variable payloads are decoded from offset 0 of a buffer holding
    exactly their bytes, as the source's fresh sub-parsers do.
    `DevicePathParser` runs the same steps as methods over a parser. */
module DevicePath {
  import opened Common
  import B = UefiBase

  // ------------------------------------------------------------ node kinds

  /** The `DeviceType` codes: hardware, ACPI, messaging, media, BIOS boot
      specification and end. */
  const DEVICE_TYPES: seq<int> := [1, 2, 3, 4, 5, 0x7F]

  const HARDWARE := 1
  const ACPI := 2
  const MESSAGING := 3
  const MEDIA := 4
  const END := 0x7F

  const PCI_SUBTYPE := 1
  const ACPI_SUBTYPE := 1
  const NVME_NAMESPACE_SUBTYPE := 0x17
  const HARDDRIVE_SUBTYPE := 1
  const FILEPATH_SUBTYPE := 4
  const ENTIRE_END_SUBTYPE := 0xFF

  /** The `PartitionSignatureType` codes: none, MBR and GUID. */
  const SIGNATURE_TYPES: seq<int> := [0, 1, 2]

  /** A hard-drive node's partition signature. */
  datatype PartitionSignature = NoSignature | MbrSignature(value: nat) | GuidSignature(guid: Guid)

  /** The decoded body of one device-path node. */
  datatype Node =
    | AcpiNode(hid: nat, uid: nat)
    | PciNode(pciFunction: nat, pciDevice: nat)
    | NvmeNamespaceNode(namespaceId: nat, namespaceUuid: nat)
    | HardDriveNode(partitionNumber: nat, partitionStart: nat, partitionSize: nat,
                    signature: PartitionSignature, mbrType: nat, signatureType: nat)
    | FilePathNode(pathName: bytes)
    | EntireEndNode
    | UnknownNode(data: bytes)

  /** A node with the type and subtype bytes of its header. */
  datatype DevicePathNode = DevicePathNode(deviceType: int, deviceSubtype: int, node: Node)

  /** The node decoders that can be registered. */
  datatype NodeHandler = AcpiHandler | PciHandler | NvmeNamespaceHandler | HardDriveHandler
                       | FilePathHandler | EntireEndHandler | UnknownNodeHandler

  /** The device-path handler table, keyed by (type, subtype). */
  const NODE_HANDLERS: map<(int, int), NodeHandler> := map[
    (ACPI, ACPI_SUBTYPE) := AcpiHandler,
    (HARDWARE, PCI_SUBTYPE) := PciHandler,
    (MESSAGING, NVME_NAMESPACE_SUBTYPE) := NvmeNamespaceHandler,
    (MEDIA, HARDDRIVE_SUBTYPE) := HardDriveHandler,
    (MEDIA, FILEPATH_SUBTYPE) := FilePathHandler,
    (END, ENTIRE_END_SUBTYPE) := EntireEndHandler]

  /** `lookup_device_path_handler`: a registered pair gets its decoder, any
      other pair the unknown decoder. */
  function LookupNodeHandler(deviceType: int, deviceSubtype: int): (h: NodeHandler)
    ensures h == AcpiHandler <==> deviceType == ACPI && deviceSubtype == ACPI_SUBTYPE
    ensures h == PciHandler <==> deviceType == HARDWARE && deviceSubtype == PCI_SUBTYPE
    ensures h == NvmeNamespaceHandler <==> deviceType == MESSAGING && deviceSubtype == NVME_NAMESPACE_SUBTYPE
    ensures h == HardDriveHandler <==> deviceType == MEDIA && deviceSubtype == HARDDRIVE_SUBTYPE
    ensures h == FilePathHandler <==> deviceType == MEDIA && deviceSubtype == FILEPATH_SUBTYPE
    ensures h == EntireEndHandler <==> deviceType == END && deviceSubtype == ENTIRE_END_SUBTYPE
  {
    if (deviceType, deviceSubtype) in NODE_HANDLERS then NODE_HANDLERS[(deviceType, deviceSubtype)]
    else UnknownNodeHandler
  }

  // ---------------------------------------------------------- node decoders

  /** ACPI node: `_HID` and `_UID`, a uint32 each. */
  function Acpi(data: bytes, off: nat): (r: Step<Node>)
    requires off <= |data|
    ensures r.Ok? <==> off + 8 <= |data|
    ensures r.Ok? ==> r.value.1 == off + 8
                      && r.value.0 == AcpiNode(LittleEndian(data[off..off + 4]), LittleEndian(data[off + 4..off + 8]))
  {
    var (hid, o1) :- B.GetUint32(data, off);
    var (uid, o2) :- B.GetUint32(data, o1);
    Ok((AcpiNode(hid, uid), o2))
  }

  /** PCI node: function and device number, one byte each. */
  function Pci(data: bytes, off: nat): (r: Step<Node>)
    requires off <= |data|
    ensures r.Ok? <==> off + 2 <= |data|
    ensures r.Ok? ==> r.value.1 == off + 2 && r.value.0 == PciNode(data[off] as nat, data[off + 1] as nat)
  {
    var (fn, o1) :- B.GetInt(data, off, 1);
    var (device, o2) :- B.GetInt(data, o1, 1);
    assert data[off..off + 1] == [data[off]] && data[o1..o2] == [data[off + 1]];
    Ok((PciNode(fn, device), o2))
  }

  /** NVMe namespace node: a uint32 namespace id and an 8-byte
      little-endian namespace identifier. */
  function NvmeNamespace(data: bytes, off: nat): (r: Step<Node>)
    requires off <= |data|
    ensures r.Ok? <==> off + 12 <= |data|
    ensures r.Ok? ==> r.value.1 == off + 12
                      && r.value.0 == NvmeNamespaceNode(LittleEndian(data[off..off + 4]),
                                                        LittleEndian(data[off + 4..off + 12]))
  {
    var (namespaceId, o1) :- B.GetUint32(data, off);
    var (namespaceUuid, o2) :- B.GetInt(data, o1, 8);
    Ok((NvmeNamespaceNode(namespaceId, namespaceUuid), o2))
  }

  /** The partition signature a signature type selects from the 16-byte
      signature field: none, the big-endian value of its first 4 bytes, or
      the whole field as a GUID; any other type is a value error. */
  function Signature(signatureType: nat, field: bytes): (r: Result<PartitionSignature>)
    requires |field| == 16
    ensures r.Ok? <==> signatureType in SIGNATURE_TYPES
    ensures r.Err? ==> r.error == UnexpectedType(signatureType, SIGNATURE_TYPES)
    ensures signatureType == 0 ==> r == Ok(NoSignature)
    ensures signatureType == 1 ==> r == Ok(MbrSignature(BigEndian(field[0..4])))
    ensures signatureType == 2 ==> r == Ok(GuidSignature(field))
  {
    if signatureType == 0 then Ok(NoSignature)
    else if signatureType == 1 then Ok(MbrSignature(BigEndian(field[0..4])))
    else if signatureType == 2 then Ok(GuidSignature(field))
    else Err(UnexpectedType(signatureType, SIGNATURE_TYPES))
  }

  /** Hard-drive node: partition number (uint32), start and size (8 bytes
      each), the 16-byte signature field, MBR type and signature type (a
      byte each): 38 bytes. */
  function HardDrive(data: bytes, off: nat): (r: Step<Node>)
    requires off <= |data|
    ensures r.Ok? <==> off + 38 <= |data| && data[off + 37] as int in SIGNATURE_TYPES
    ensures r.Ok? ==> r.value.1 == off + 38 && r.value.0.HardDriveNode?
                      && r.value.0.partitionNumber == LittleEndian(data[off..off + 4])
                      && r.value.0.partitionStart == LittleEndian(data[off + 4..off + 12])
                      && r.value.0.partitionSize == LittleEndian(data[off + 12..off + 20])
                      && r.value.0.mbrType == data[off + 36] as nat
                      && r.value.0.signatureType == data[off + 37] as nat
                      && Signature(data[off + 37] as nat, data[off + 20..off + 36]) == Ok(r.value.0.signature)
  {
    var (number, o1) :- B.GetUint32(data, off);
    var (start, o2) :- B.GetInt(data, o1, 8);
    var (size, o3) :- B.GetInt(data, o2, 8);
    var (field, o4) :- B.GetBytes(data, o3, 16);
    var (mbrType, o5) :- B.GetInt(data, o4, 1);
    var (signatureType, o6) :- B.GetInt(data, o5, 1);
    assert data[o4..o5] == [data[off + 36]] && data[o5..o6] == [data[off + 37]];
    var signature :- Signature(signatureType, field);
    Ok((HardDriveNode(number, start, size, signature, mbrType, signatureType), o6))
  }

  /** The decoder a handler names, run on a node body from `off`. File-path
      and unknown nodes keep the rest of the body; no decoder checks that
      the body is used up. */
  function DecodeNode(h: NodeHandler, data: bytes, off: nat): (r: Step<Node>)
    requires off <= |data|
    ensures r.Ok? ==> r.value.1 <= |data|
    ensures h == FilePathHandler ==> r == Ok((FilePathNode(data[off..]), |data|))
    ensures h == UnknownNodeHandler ==> r == Ok((UnknownNode(data[off..]), |data|))
    ensures h == EntireEndHandler ==> r == Ok((EntireEndNode, off))
  {
    match h
    case AcpiHandler => Acpi(data, off)
    case PciHandler => Pci(data, off)
    case NvmeNamespaceHandler => NvmeNamespace(data, off)
    case HardDriveHandler => HardDrive(data, off)
    case FilePathHandler =>
      var (path, next) := B.GetRest(data, off);
      Ok((FilePathNode(path), next))
    case EntireEndHandler => Ok((EntireEndNode, off))
    case UnknownNodeHandler =>
      var (body, next) := B.GetRest(data, off);
      Ok((UnknownNode(body), next))
  }

  // ------------------------------------------------------------ node lists

  /** The node header: type, subtype, a 2-byte length; the type is checked
      once both bytes have been read, before the length is. */
  function NodeHeader(data: bytes, off: nat): (r: Step<(int, int, nat)>)
    requires off <= |data|
    ensures r.Ok? <==> off + 4 <= |data| && data[off] as int in DEVICE_TYPES
    ensures off + 2 <= |data| && data[off] as int !in DEVICE_TYPES
            ==> r == Err(UnexpectedType(data[off] as int, DEVICE_TYPES))
    ensures r.Ok? ==> r.value == ((data[off] as int, data[off + 1] as int, LittleEndian(data[off + 2..off + 4])), off + 4)
  {
    var (deviceType, o1) :- B.GetInt(data, off, 1);
    var (deviceSubtype, o2) :- B.GetInt(data, o1, 1);
    assert data[off..off + 1] == [data[off]] && data[o1..o2] == [data[off + 1]];
    if deviceType !in DEVICE_TYPES then Err(UnexpectedType(deviceType, DEVICE_TYPES))
    else
      var (length, o3) :- B.GetInt(data, o2, 2);
      Ok(((deviceType, deviceSubtype, length), o3))
  }

  /** One node: the header, then a body of `length - 4` bytes decoded by the
      handler registered for (type, subtype). A length below 4 fails as a
      negative read, one past the buffer as a short buffer. */
  function NodeEntry(data: bytes, off: nat): (r: Step<DevicePathNode>)
    requires off <= |data|
    ensures r.Ok? ==> off + 4 <= r.value.1 <= |data|
  {
    var (hd, o1) :- NodeHeader(data, off);
    var (deviceType, deviceSubtype, length) := hd;
    var (body, o2) :- B.GetBytes(data, o1, length - 4);
    var (node, _) :- DecodeNode(LookupNodeHandler(deviceType, deviceSubtype), body, 0);
    Ok((DevicePathNode(deviceType, deviceSubtype, node), o2))
  }

  /** A node spans exactly the length its header declares, keeps the type
      and subtype it read, and holds what the handler registered for them
      decodes from its body. */
  lemma NodeEntryValue(data: bytes, off: nat)
    requires off <= |data| && NodeEntry(data, off).Ok?
    ensures var (e, next) := NodeEntry(data, off).value;
            var hd := NodeHeader(data, off);
            && hd.Ok? && next == off + hd.value.0.2
            && e.deviceType == data[off] as int && e.deviceSubtype == data[off + 1] as int
            && var d := DecodeNode(LookupNodeHandler(data[off] as int, data[off + 1] as int), data[off + 4..next], 0);
            && d.Ok? && e.node == d.value.0
  {
    var hd := NodeHeader(data, off).value;
    var length := hd.0.2;
    var b := B.GetBytes(data, off + 4, length - 4);
    assert b.Ok? && b.value == (data[off + 4..off + length], off + length);
  }

  /** `NodeEntry` may be run at every offset and moves at least 4 bytes on. */
  lemma NodeEntryAdvances(data: bytes)
    ensures Advances(NodeEntry, data, 4)
  {
  }

  /** The `parse_device_path` loop: nodes are read while bytes remain. */
  function NodeRun(data: bytes, off: nat, acc: seq<DevicePathNode>): (r: Step<seq<DevicePathNode>>)
    requires off <= |data|
    ensures r.Ok? ==> r.value.1 == |data|
    ensures r.Ok? ==> |acc| <= |r.value.0| && r.value.0[..|acc|] == acc
    ensures r.Ok? ==> 4 * (|r.value.0| - |acc|) <= |data| - off
  {
    NodeEntryAdvances(data);
    Fill(NodeEntry, 4, data, off, acc)
  }

  /** `parse_device_path(parser)`: the node list filling the buffer from `off`. */
  function ParseDevicePath(data: bytes, off: nat): (r: Step<seq<DevicePathNode>>)
    requires off <= |data|
    ensures r.Ok? ==> r.value.1 == |data| && 4 * |r.value.0| <= |data| - off
  {
    NodeRun(data, off, [])
  }

  /** The nodes of a device path are read one after another: node `i` is
      the node `NodeEntry` reads where node `i - 1` ended (the first at
      `off`), and the last ends at the end of the buffer. */
  lemma ParseDevicePathNodes(data: bytes, off: nat)
    requires off <= |data| && ParseDevicePath(data, off).Ok?
    ensures var nodes := ParseDevicePath(data, off).value.0;
            && (forall i | 0 <= i < |nodes| ::
                  NodeEntry(data, FillStart(NodeEntry, 4, data, off, [], i))
                  == Ok((nodes[i], FillStart(NodeEntry, 4, data, off, [], i + 1))))
            && FillStart(NodeEntry, 4, data, off, [], 0) == off
            && FillStart(NodeEntry, 4, data, off, [], |nodes|) == |data|
  {
    NodeEntryAdvances(data);
    FillTiles(NodeEntry, 4, data, off);
  }

  /** The converse: nodes that lie back to back from `off` to the end of
      the buffer are exactly what the loop reads, after the nodes it had. */
  lemma NodeRunOfTiling(data: bytes, off: nat, acc: seq<DevicePathNode>, starts: seq<nat>, nodes: seq<DevicePathNode>)
    requires off <= |data| && Tiling(NodeEntry, data, off, starts, nodes)
    ensures NodeRun(data, off, acc) == Ok((acc + nodes, |data|))
  {
    NodeEntryAdvances(data);
    FillOfTiling(NodeEntry, 4, data, off, acc, starts, nodes);
  }

  /** Nodes that lie back to back from `off` to the end of the buffer decode
      as a device path of exactly those nodes. */
  lemma ParseDevicePathOfTiling(data: bytes, off: nat, starts: seq<nat>, nodes: seq<DevicePathNode>)
    requires off <= |data| && Tiling(NodeEntry, data, off, starts, nodes)
    ensures ParseDevicePath(data, off) == Ok((nodes, |data|))
  {
    NodeRunOfTiling(data, off, [], starts, nodes);
    assert [] + nodes == nodes;
  }

  /** A node whose length field is below 4 fails with a negative read. */
  lemma ShortNodeLengthFails(data: bytes, off: nat)
    requires off + 4 <= |data| && data[off] as int in DEVICE_TYPES
    requires LittleEndian(data[off + 2..off + 4]) < 4
    ensures NodeEntry(data, off) == Err(NegativeSize(LittleEndian(data[off + 2..off + 4]) - 4))
  {
  }

  /** A node whose length runs past the buffer fails with a short buffer. */
  lemma LongNodeLengthFails(data: bytes, off: nat)
    requires off + 4 <= |data| && data[off] as int in DEVICE_TYPES
    requires LittleEndian(data[off + 2..off + 4]) > |data| - off
    ensures NodeEntry(data, off)
            == Err(ShortBuffer(off + 4, LittleEndian(data[off + 2..off + 4]) - 4, |data| - off - 4))
  {
  }

  /** A node of an unknown device type fails the whole list. */
  lemma UnknownDeviceTypeFails(data: bytes, off: nat)
    requires off + 2 <= |data| && data[off] as int !in DEVICE_TYPES
    ensures ParseDevicePath(data, off) == Err(UnexpectedType(data[off] as int, DEVICE_TYPES))
  {
  }

  /** An end-of-path node of length 4 is decoded with an empty body. */
  lemma EntireEndExample()
    ensures ParseDevicePath([0x7F, 0xFF, 4, 0], 0) == Ok(([DevicePathNode(0x7F, 0xFF, EntireEndNode)], 4))
  {
    var data: bytes := [0x7F, 0xFF, 4, 0];
    LittleEndian2(data[2..4]);
    assert NodeHeader(data, 0) == Ok(((0x7F, 0xFF, 4), 4));
    assert LookupNodeHandler(0x7F, 0xFF) == EntireEndHandler;
    assert NodeEntry(data, 0) == Ok((DevicePathNode(0x7F, 0xFF, EntireEndNode), 4));
  }

  // ------------------------------------------------------ boot variables

  /** An EFI_LOAD_OPTION (`UEFIBootVariable`). */
  datatype LoadOption = LoadOption(attributes: nat, description: bytes,
                                   filePathList: seq<DevicePathNode>, optionalData: bytes)

  /** The fixed part of a load option: uint32 attributes, the uint16
      file-path-list length and the NUL-terminated UTF-16 description. */
  function LoadOptionHeader(data: bytes, off: nat): (r: Step<(nat, nat, bytes)>)
    requires off <= |data|
    ensures r.Ok? <==> off + 6 <= |data| && B.GetUtf16(data, off + 6).Ok?
    ensures r.Err? ==> r.error.ShortBuffer?
    ensures r.Ok? ==> var (attributes, fpl, description) := r.value.0;
                      off + 6 + |description| == r.value.1 <= |data|
                      && attributes == LittleEndian(data[off..off + 4])
                      && fpl == LittleEndian(data[off + 4..off + 6])
                      && B.GetUtf16(data, off + 6) == Ok((description, r.value.1))
  {
    var (attributes, o1) :- B.GetUint32(data, off);
    var (fpl, o2) :- B.GetInt(data, o1, 2);
    var (description, o3) :- B.GetUtf16(data, o2);
    Ok(((attributes, fpl, description), o3))
  }

  /** `UEFIBootVariable.parse`: the fixed part, the device paths decoded
      from exactly the file-path-list length's bytes after it, and the rest
      as optional data. */
  function BootVariable(data: bytes, off: nat): (r: Step<LoadOption>)
    requires off <= |data|
    ensures r.Ok? <==> var h := LoadOptionHeader(data, off);
                       && h.Ok? && h.value.1 + h.value.0.1 <= |data|
                       && ParseDevicePath(data[h.value.1..h.value.1 + h.value.0.1], 0).Ok?
    ensures r.Ok? ==> r.value.1 == |data|
    ensures r.Ok? ==> var h := LoadOptionHeader(data, off);
                      h.Ok? && var paths, fpl := h.value.1, h.value.0.1;
                      paths + fpl <= |data|
                      && r.value.0.attributes == h.value.0.0 && r.value.0.description == h.value.0.2
                      && ParseDevicePath(data[paths..paths + fpl], 0) == Ok((r.value.0.filePathList, fpl))
                      && r.value.0.optionalData == data[paths + fpl..]
  {
    var hr := LoadOptionHeader(data, off);
    if hr.Err? then Err(hr.error)
    else LoadOptionBody(data, hr.value.1, hr.value.0.0, hr.value.0.1, hr.value.0.2)
  }

  /** What follows the fixed part of a load option: the device paths of the
      next `fpl` bytes, then the rest of the buffer as optional data. */
  function LoadOptionBody(data: bytes, o1: nat, attributes: nat, fpl: nat, description: bytes): (r: Step<LoadOption>)
    requires o1 <= |data|
    ensures r.Ok? <==> o1 + fpl <= |data| && ParseDevicePath(data[o1..o1 + fpl], 0).Ok?
    ensures r.Ok? ==> o1 + fpl <= |data| && r.value.1 == |data|
                      && r.value.0 == LoadOption(attributes, description,
                                                 ParseDevicePath(data[o1..o1 + fpl], 0).value.0, data[o1 + fpl..])
  {
    var (sub, o2) :- B.GetBytes(data, o1, fpl);
    var (paths, _) :- ParseDevicePath(sub, 0);
    var (optional, o3) := B.GetRest(data, o2);
    Ok((LoadOption(attributes, description, paths, optional), o3))
  }

  /** The `UEFIBootOrderVariable.parse` loop: uint16 entries while bytes remain. */
  function BootOrderRun(data: bytes, off: nat, acc: seq<nat>): (r: Step<seq<nat>>)
    requires off <= |data|
    decreases |data| - off
    ensures r.Ok? ==> r.value.1 == |data|
  {
    if off == |data| then Ok((acc, off))
    else
      var (entry, next) :- B.GetInt(data, off, 2);
      BootOrderRun(data, next, acc + [entry])
  }

  /** `UEFIBootOrderVariable.parse` */
  function BootOrder(data: bytes, off: nat): (r: Step<seq<nat>>)
    requires off <= |data|
    ensures r.Ok? ==> r.value.1 == |data|
  {
    BootOrderRun(data, off, [])
  }

  /** The `i`-th uint16 entry from `off`. */
  function Entry16(data: bytes, off: nat, i: nat): nat
    requires off + 2 * i + 2 <= |data|
  {
    LittleEndian(data[off + 2 * i..off + 2 * i + 2])
  }

  /** The boot order fills the buffer: it decodes exactly when an even number
      of bytes remains, the entries being the consecutive uint16 values; with
      an odd number the last byte is a short read. */
  lemma {:induction false} BootOrderRunSpec(data: bytes, off: nat, acc: seq<nat>)
    requires off <= |data|
    ensures var r := BootOrderRun(data, off, acc);
            (r.Ok? <==> (|data| - off) % 2 == 0)
            && ((|data| - off) % 2 == 1 ==> r == Err(ShortBuffer(|data| - 1, 2, 1)))
            && (r.Ok? ==> |r.value.0| == |acc| + (|data| - off) / 2 && r.value.0[..|acc|] == acc
                          && forall i | 0 <= i < (|data| - off) / 2 :: r.value.0[|acc| + i] == Entry16(data, off, i))
    decreases |data| - off
  {
    if off == |data| {
    } else if off + 1 == |data| {
    } else {
      var next := off + 2;
      var entry := LittleEndian(data[off..next]);
      assert BootOrderRun(data, off, acc) == BootOrderRun(data, next, acc + [entry]);
      BootOrderRunSpec(data, next, acc + [entry]);
      var r := BootOrderRun(data, off, acc);
      if r.Ok? {
        forall i | 0 <= i < (|data| - off) / 2
          ensures r.value.0[|acc| + i] == Entry16(data, off, i)
        {
          if i > 0 {
            assert Entry16(data, off, i) == Entry16(data, next, i - 1);
          }
        }
      }
    }
  }

  /** The boot order of three bytes fails on its last byte. */
  lemma OddBootOrderExample()
    ensures BootOrder([1, 0, 2], 0) == Err(ShortBuffer(2, 2, 1))
  {
    BootOrderRunSpec([1, 0, 2], 0, []);
  }

  // ----------------------------------------------------------- boot names

  /** The uppercase hexadecimal digit for `d`. */
  function HexDigit(d: nat): (c: char)
    requires d < 16
    ensures '0' <= c <= '9' || 'A' <= c <= 'F'
  {
    if d < 10 then (48 + d) as char else (55 + d) as char
  }

  /** `f"{order:04X}"` for an order below 0x10000: its four base-16
      digits, most significant first. */
  function Hex4(n: nat): (s: string)
    requires n < 0x1_0000
    ensures |s| == 4
  {
    [HexDigit(n / 16 / 16 / 16), HexDigit(n / 16 / 16 % 16), HexDigit(n / 16 % 16), HexDigit(n % 16)]
  }

  /** `Boot####` as the UTF-16LE bytes the variable registry is keyed by. */
  function BootName(order: nat): (name: bytes)
    requires order < 0x1_0000
    ensures |name| == 16
  {
    Utf16Le("Boot" + Hex4(order))
  }

  /** The names the boot-option loop registers: `Boot0000` to `BootFFFE`. */
  predicate IsBootOptionName(name: bytes)
  {
    exists order: nat | order < 0xFFFF :: BootName(order) == name
  }

  lemma HexDigitInjective(a: nat, b: nat)
    requires a < 16 && b < 16 && HexDigit(a) == HexDigit(b)
    ensures a == b
  {
  }

  /** Different orders print differently. */
  lemma Hex4Injective(a: nat, b: nat)
    requires a < 0x1_0000 && b < 0x1_0000 && Hex4(a) == Hex4(b)
    ensures a == b
  {
    HexDigitInjective(a / 16 / 16 / 16, b / 16 / 16 / 16);
    HexDigitInjective(a / 16 / 16 % 16, b / 16 / 16 % 16);
    HexDigitInjective(a / 16 % 16, b / 16 % 16);
    HexDigitInjective(a % 16, b % 16);
    assert a / 16 / 16 / 16 < 16 && b / 16 / 16 / 16 < 16;
    assert a / 16 / 16 == b / 16 / 16;
    assert a / 16 == b / 16;
  }

  /** Different orders have different variable names. */
  lemma BootNameInjective(a: nat, b: nat)
    requires a < 0x1_0000 && b < 0x1_0000 && BootName(a) == BootName(b)
    ensures a == b
  {
    var s, t := "Boot" + Hex4(a), "Boot" + Hex4(b);
    forall i | 0 <= i < 4
      ensures Hex4(a)[i] == Hex4(b)[i]
    {
      assert BootName(a)[2 * (4 + i)] == BootName(b)[2 * (4 + i)];
      assert s[4 + i] as int == t[4 + i] as int;
    }
    assert Hex4(a) == Hex4(b);
    Hex4Injective(a, b);
  }

  /** Every order below 0xFFFF names a registered boot option. */
  lemma BootOptionRegistered(order: nat)
    requires order < 0xFFFF
    ensures IsBootOptionName(BootName(order))
  {
  }

  /** `BootFFFF` is not registered: the registration range stops at 0xFFFE. */
  lemma BootFFFFNotRegistered()
    ensures !IsBootOptionName(BootName(0xFFFF))
  {
    if IsBootOptionName(BootName(0xFFFF)) {
      var order: nat :| order < 0xFFFF && BootName(order) == BootName(0xFFFF);
      BootNameInjective(order, 0xFFFF);
    }
  }
}
