/** The Secure Boot decoders run over a `UefiParser`: each advances the parser
    it is given and agrees with the `SecureBoot` step of the same name. Every
    signature entry is decoded by a fresh sub-parser over exactly its bytes. */
module SecureBootParser {
  import opened Common
  import B = UefiBase
  import G = SecureBoot
  import opened UefiParser

  /** `SecureBootVariable.parse` */
  method SecureBootVariable(p: UefiParser) returns (r: Result<bool>)
    requires p.Valid()
    modifies p`offset
    ensures p.Valid()
    ensures Tracks(r, p.offset, G.SecureBootVariable(p.data, old(p.offset)))
  {
    var enabled :- p.GetInt(1);
    return Ok(enabled != 0);
  }

  /** `X509SignatureData.parse` and `UnknownSignatureData.parse`: the owner
      GUID, then the rest of the entry. */
  method DecodeSignatureData(h: G.SignatureHandler, p: UefiParser) returns (r: Result<G.SignatureData>)
    requires p.Valid()
    modifies p`offset
    ensures p.Valid()
    ensures Tracks(r, p.offset, G.DecodeSignatureData(h, p.data, old(p.offset)))
  {
    var owner :- p.GetGuid();
    var rest := p.GetBytes(p.Left());
    if h == G.X509Handler {
      return Ok(G.X509Signature(owner, rest.value));
    }
    return Ok(G.UnknownSignature(owner, rest.value));
  }

  /** The signature loop of `SignatureList.parse`: while the remaining list
      length is nonzero, a `size`-byte entry is decoded by a sub-parser and
      the length reduced by the bytes taken. */
  method Signatures(p: UefiParser, signatureType: Guid, size: nat, listLeft: int)
    returns (r: Result<seq<G.SignatureData>>)
    requires p.Valid()
    modifies p`offset
    ensures p.Valid()
    ensures Tracks(r, p.offset, G.SignatureRun(p.data, old(p.offset), signatureType, size, listLeft, []))
  {
    var left := listLeft;
    var signatures: seq<G.SignatureData> := [];
    while left != 0
      invariant p.Valid()
      invariant G.SignatureRun(p.data, p.offset, signatureType, size, left, signatures)
                == G.SignatureRun(p.data, old(p.offset), signatureType, size, listLeft, [])
      decreases p.Left()
    {
      var subdata :- p.GetBytes(size);
      var sub := p.GetSubparser(subdata);
      var sig :- DecodeSignatureData(G.LookupSignatureHandler(signatureType), sub);
      signatures := signatures + [sig];
      left := left - |subdata|;
    }
    return Ok(signatures);
  }

  /** The header bytes and the signature loop after the fixed fields of a list. */
  method ListBody(p: UefiParser, fields: (Guid, nat, nat, nat), listLeft: int) returns (r: Result<G.SignatureList>)
    requires p.Valid()
    modifies p`offset
    ensures p.Valid()
    ensures Tracks(r, p.offset, G.ListBody(p.data, old(p.offset), fields, listLeft))
  {
    var (signatureType, _, headerSize, size) := fields;
    var header :- p.GetBytes(headerSize);
    var signatures :- Signatures(p, signatureType, size, listLeft);
    return Ok(G.SignatureList(signatureType, header, signatures));
  }

  /** The fixed fields of a signature list. */
  method ListFields(p: UefiParser) returns (r: Result<(Guid, nat, nat, nat)>)
    requires p.Valid()
    modifies p`offset
    ensures p.Valid()
    ensures Tracks(r, p.offset, G.ListFields(p.data, old(p.offset)))
  {
    var signatureType :- p.GetGuid();
    var listSize :- p.GetUint32();
    var headerSize :- p.GetUint32();
    var size :- p.GetUint32();
    return Ok((signatureType, listSize, headerSize, size));
  }

  /** `SignatureList.parse`, with the header counted inside the list size. */
  method SignatureList(p: UefiParser) returns (r: Result<G.SignatureList>)
    requires p.Valid()
    modifies p`offset
    ensures p.Valid()
    ensures Tracks(r, p.offset, G.DecodeSignatureList(p.data, old(p.offset)))
  {
    var fields :- ListFields(p);
    r := ListBody(p, fields, fields.1 - G.LIST_FIXED_SIZE - fields.2);
  }

  /** `SignaturesVariable.parse`: signature lists while bytes remain. */
  method SignaturesVariable(p: UefiParser) returns (r: Result<seq<G.SignatureList>>)
    requires p.Valid()
    modifies p`offset
    ensures p.Valid()
    ensures Tracks(r, p.offset, G.SignaturesVariable(p.data, old(p.offset)))
  {
    var lists: seq<G.SignatureList> := [];
    while p.Left() > 0
      invariant p.Valid()
      invariant G.SignatureListRun(p.data, p.offset, lists) == G.SignatureListRun(p.data, old(p.offset), [])
      decreases p.Left()
    {
      var list :- SignatureList(p);
      lists := lists + [list];
    }
    return Ok(lists);
  }

  /** `UEFI_EV_EFI_VariableAuthorityEvent.parse`: the variable record, its data
      decoded as an unknown signature, and no payload bytes left over. */
  method VariableAuthorityEvent(p: UefiParser) returns (r: Result<G.VariableAuthority>)
    requires p.Valid()
    modifies p`offset
    ensures p.Valid()
    ensures Tracks(r, p.offset, G.VariableAuthorityEvent(p.data, old(p.offset)))
  {
    var record :- p.VariableRecord();
    var sub := p.GetSubparser(record.variableData);
    var variableData :- DecodeSignatureData(G.UnknownSignatureHandler, sub);
    if p.Left() > 0 {
      return Err(NotConsumed(p.Left()));
    }
    return Ok(G.VariableAuthority(record.variableName, record.unicodeName, variableData));
  }
}
