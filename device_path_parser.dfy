/** The device-path and boot-variable decoders run over a `UefiParser`, as the
    source's `parse` classmethods do: each advances the parser it is given and
    agrees with the `DevicePath` step of the same name. Node bodies and the
    file-path list are decoded by a fresh sub-parser over exactly their bytes. */
module DevicePathParser {
  import opened Common
  import G = DevicePath
  import opened UefiParser

  /** `AcpiDevicePath.parse` */
  method Acpi(p: UefiParser) returns (r: Result<G.Node>)
    requires p.Valid()
    modifies p`offset
    ensures p.Valid()
    ensures Tracks(r, p.offset, G.Acpi(p.data, old(p.offset)))
  {
    var hid :- p.GetUint32();
    var uid :- p.GetUint32();
    return Ok(G.AcpiNode(hid, uid));
  }

  /** `PCIDevicePath.parse` */
  method Pci(p: UefiParser) returns (r: Result<G.Node>)
    requires p.Valid()
    modifies p`offset
    ensures p.Valid()
    ensures Tracks(r, p.offset, G.Pci(p.data, old(p.offset)))
  {
    var fn :- p.GetInt(1);
    var device :- p.GetInt(1);
    return Ok(G.PciNode(fn, device));
  }

  /** `MsgNVMENamespaceDevicePath.parse` */
  method NvmeNamespace(p: UefiParser) returns (r: Result<G.Node>)
    requires p.Valid()
    modifies p`offset
    ensures p.Valid()
    ensures Tracks(r, p.offset, G.NvmeNamespace(p.data, old(p.offset)))
  {
    var namespaceId :- p.GetUint32();
    var namespaceUuid :- p.GetInt(8);
    return Ok(G.NvmeNamespaceNode(namespaceId, namespaceUuid));
  }

  /** `HarddriveDevicePath.parse` */
  method HardDrive(p: UefiParser) returns (r: Result<G.Node>)
    requires p.Valid()
    modifies p`offset
    ensures p.Valid()
    ensures Tracks(r, p.offset, G.HardDrive(p.data, old(p.offset)))
  {
    var number :- p.GetUint32();
    var start :- p.GetInt(8);
    var size :- p.GetInt(8);
    var field :- p.GetBytes(16);
    var mbrType :- p.GetInt(1);
    var signatureType :- p.GetInt(1);
    var signature :- G.Signature(signatureType, field);
    return Ok(G.HardDriveNode(number, start, size, signature, mbrType, signatureType));
  }

  /** `handler.parse(subparser, header)` for the handler looked up. */
  method DecodeNode(h: G.NodeHandler, p: UefiParser) returns (r: Result<G.Node>)
    requires p.Valid()
    modifies p`offset
    ensures p.Valid()
    ensures Tracks(r, p.offset, G.DecodeNode(h, p.data, old(p.offset)))
  {
    match h {
      case AcpiHandler => r := Acpi(p);
      case PciHandler => r := Pci(p);
      case NvmeNamespaceHandler => r := NvmeNamespace(p);
      case HardDriveHandler => r := HardDrive(p);
      case FilePathHandler =>
        var path := p.GetBytes(p.Left());
        r := Ok(G.FilePathNode(path.value));
      case EntireEndHandler => r := Ok(G.EntireEndNode);
      case UnknownNodeHandler =>
        var body := p.GetBytes(p.Left());
        r := Ok(G.UnknownNode(body.value));
    }
  }

  /** One turn of the `parse_device_path` loop: the node header, then the
      body of `length - 4` bytes decoded by a sub-parser. */
  method ParseNode(p: UefiParser) returns (r: Result<G.DevicePathNode>)
    requires p.Valid()
    modifies p`offset
    ensures p.Valid()
    ensures Tracks(r, p.offset, G.NodeEntry(p.data, old(p.offset)))
  {
    var deviceType :- p.GetInt(1);
    var deviceSubtype :- p.GetInt(1);
    if deviceType !in G.DEVICE_TYPES {
      return Err(UnexpectedType(deviceType, G.DEVICE_TYPES));
    }
    var dl :- p.GetInt(2);
    assert G.NodeHeader(p.data, old(p.offset)) == Ok(((deviceType as int, deviceSubtype as int, dl), p.offset));
    var subdata :- p.GetBytes(dl as int - 4);
    var sub := p.GetSubparser(subdata);
    var node :- DecodeNode(G.LookupNodeHandler(deviceType, deviceSubtype), sub);
    return Ok(G.DevicePathNode(deviceType, deviceSubtype, node));
  }

  /** `parse_device_path(parser)`: nodes are read while bytes remain. */
  method ParseDevicePath(p: UefiParser) returns (r: Result<seq<G.DevicePathNode>>)
    requires p.Valid()
    modifies p`offset
    ensures p.Valid()
    ensures Tracks(r, p.offset, G.ParseDevicePath(p.data, old(p.offset)))
  {
    var entries: seq<G.DevicePathNode> := [];
    while p.Left() > 0
      invariant p.Valid()
      invariant G.NodeRun(p.data, p.offset, entries) == G.NodeRun(p.data, old(p.offset), [])
      decreases p.Left()
    {
      var entry :- ParseNode(p);
      entries := entries + [entry];
    }
    return Ok(entries);
  }

  /** `UEFIBootVariable.parse` */
  method BootVariable(p: UefiParser) returns (r: Result<G.LoadOption>)
    requires p.Valid()
    modifies p`offset
    ensures p.Valid()
    ensures Tracks(r, p.offset, G.BootVariable(p.data, old(p.offset)))
  {
    var attributes :- p.GetUint32();
    var fpl :- p.GetInt(2);
    var description :- p.GetUtf16();
    var subdata :- p.GetBytes(fpl);
    var sub := p.GetSubparser(subdata);
    var paths :- ParseDevicePath(sub);
    var optional := p.GetBytes(p.Left());
    return Ok(G.LoadOption(attributes, description, paths, optional.value));
  }

  /** `UEFIBootOrderVariable.parse`: uint16 entries while bytes remain. */
  method BootOrder(p: UefiParser) returns (r: Result<seq<nat>>)
    requires p.Valid()
    modifies p`offset
    ensures p.Valid()
    ensures Tracks(r, p.offset, G.BootOrder(p.data, old(p.offset)))
  {
    var entries: seq<nat> := [];
    while p.Left() > 0
      invariant p.Valid()
      invariant G.BootOrderRun(p.data, p.offset, entries) == G.BootOrderRun(p.data, old(p.offset), [])
      decreases p.Left()
    {
      var entry :- p.GetInt(2);
      entries := entries + [entry];
    }
    return Ok(entries);
  }
}
