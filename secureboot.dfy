/** UEFI Secure Boot variables as pure decoding steps: `SecureBoot`, the
    signature databases (`PK`, `KEK`, `db`, `dbx`) made of EFI_SIGNATURE_LIST
    structures (UEFI Specification 2.9, section 32.4.1), and the
    variable-authority event. `SecureBootParser` runs the same steps as
    methods over a parser. */
module SecureBoot {
  import opened Common
  import B = UefiBase

  /** EFI_CERT_X509_GUID, a5c059a1-94e4-4aa7-87b5-ab155c2bf072, in its on-disk byte order. */
  const X509_GUID: Guid := [0xa1, 0x59, 0xc0, 0xa5, 0xe4, 0x94, 0xa7, 0x4a,
                            0x87, 0xb5, 0xab, 0x15, 0x5c, 0x2b, 0xf0, 0x72]

  /** `SecureBootVariable.parse`: one byte; enabled iff it is nonzero. */
  function SecureBootVariable(data: bytes, off: nat): (r: Step<bool>)
    requires off <= |data|
    ensures r.Ok? <==> off < |data|
    ensures r.Ok? ==> r.value == (data[off] != 0, off + 1)
    ensures r.Err? ==> r.error == ShortBuffer(off, 1, |data| - off)
  {
    var (enabled, next) :- B.GetInt(data, off, 1);
    assert data[off..next] == [data[off]];
    Ok((enabled != 0, next))
  }

  // ------------------------------------------------------------ signatures

  /** One EFI_SIGNATURE_DATA: its owner GUID and the signature bytes. */
  datatype SignatureData =
    | X509Signature(owner: Guid, certificate: bytes)
    | UnknownSignature(owner: Guid, signatureData: bytes)
  {
    /** The bytes after the owner GUID. */
    function Body(): bytes
    {
      match this
      case X509Signature(_, certificate) => certificate
      case UnknownSignature(_, signatureData) => signatureData
    }
  }

  datatype SignatureHandler = X509Handler | UnknownSignatureHandler

  /** `lookup_signature_type_handler`: only the X.509 type is registered. */
  function LookupSignatureHandler(signatureType: Guid): (h: SignatureHandler)
    ensures h == X509Handler <==> signatureType == X509_GUID
  {
    if signatureType == X509_GUID then X509Handler else UnknownSignatureHandler
  }

  /** Both signature decoders: a 16-byte owner GUID, then the rest. */
  function DecodeSignatureData(h: SignatureHandler, data: bytes, off: nat): (r: Step<SignatureData>)
    requires off <= |data|
    ensures r.Ok? <==> off + 16 <= |data|
    ensures r.Err? ==> r.error == ShortBuffer(off, 16, |data| - off)
    ensures r.Ok? ==> r.value.1 == |data| && r.value.0.owner == data[off..off + 16]
                      && r.value.0.Body() == data[off + 16..]
                      && (r.value.0.X509Signature? <==> h == X509Handler)
  {
    var (owner, o1) :- B.GetGuid(data, off);
    var (rest, o2) := B.GetRest(data, o1);
    var sig := if h == X509Handler then X509Signature(owner, rest) else UnknownSignature(owner, rest);
    Ok((sig, o2))
  }

  /** An EFI_SIGNATURE_LIST: its signature type, header bytes and entries. */
  datatype SignatureList = SignatureList(signatureType: Guid, signatureHeader: bytes,
                                         signatures: seq<SignatureData>)

  /** The size of the fixed fields of a signature list: a GUID and three uint32s. */
  const LIST_FIXED_SIZE := 16 + 4 + 4 + 4

  /** One pass of the signature loop: `size` bytes, decoded by a parser of
      their own with the handler of the list's type. */
  function SignatureEntry(data: bytes, off: nat, signatureType: Guid, size: nat): (r: Step<SignatureData>)
    requires off <= |data|
    ensures r.Ok? ==> 16 <= size && r.value.1 == off + size <= |data|
  {
    var (sub, o1) :- B.GetBytes(data, off, size);
    var (sig, _) :- DecodeSignatureData(LookupSignatureHandler(signatureType), sub, 0);
    Ok((sig, o1))
  }

  /** An entry decodes exactly when its `size` bytes are there and hold an
      owner GUID, and it is the signature data decoded from those bytes. */
  lemma SignatureEntryValue(data: bytes, off: nat, signatureType: Guid, size: nat)
    requires off <= |data|
    ensures SignatureEntry(data, off, signatureType, size).Ok? <==> 16 <= size <= |data| - off
    ensures SignatureEntry(data, off, signatureType, size).Ok? ==>
              var d := DecodeSignatureData(LookupSignatureHandler(signatureType), data[off..off + size], 0);
              d.Ok? && SignatureEntry(data, off, signatureType, size).value.0 == d.value.0
  {
  }

  /** `SignatureEntry` for a fixed type and size, as a step of the loop. */
  function SignatureStep(signatureType: Guid, size: nat): (bytes, nat) --> Step<SignatureData>
  {
    (data: bytes, off: nat) requires off <= |data| => SignatureEntry(data, off, signatureType, size)
  }

  lemma SignatureStepStrides(data: bytes, signatureType: Guid, size: nat)
    ensures Strides(SignatureStep(signatureType, size), data, size)
  {
  }

  /** The signature-list loop: while the remaining list length is nonzero,
      a `size`-byte entry is decoded and the length reduced by it. An entry
      shorter than the owner GUID fails, so every step consumes at least 16
      bytes and the loop ends. */
  function SignatureRun(data: bytes, off: nat, signatureType: Guid, size: nat, listLeft: int,
                        acc: seq<SignatureData>): (r: Step<seq<SignatureData>>)
    requires off <= |data|
    ensures r.Ok? ==> |acc| <= |r.value.0| && r.value.0[..|acc|] == acc
    ensures r.Ok? ==> r.value.1 == off + listLeft <= |data|
  {
    SignatureStepStrides(data, signatureType, size);
    Stride(SignatureStep(signatureType, size), size, data, off, listLeft, acc)
  }

  /** One turn of the signature loop: a failed entry ends it with that
      entry's error, a decoded one is appended and the loop goes on `size`
      bytes later with `size` less to cover. */
  lemma SignatureRunStep(data: bytes, off: nat, signatureType: Guid, size: nat, listLeft: int,
                         acc: seq<SignatureData>)
    requires off <= |data| && listLeft != 0
    ensures var e := SignatureEntry(data, off, signatureType, size);
            e.Err? ==> SignatureRun(data, off, signatureType, size, listLeft, acc) == Err(e.error)
    ensures var e := SignatureEntry(data, off, signatureType, size);
            e.Ok? ==> off + size <= |data|
                      && SignatureRun(data, off, signatureType, size, listLeft, acc)
                         == SignatureRun(data, off + size, signatureType, size, listLeft - size, acc + [e.value.0])
  {
    SignatureStepStrides(data, signatureType, size);
  }

  /** The list length a run covers is its number of entries times the entry size. */
  lemma SignatureRunCount(data: bytes, off: nat, signatureType: Guid, size: nat,
                          listLeft: int, acc: seq<SignatureData>)
    requires off <= |data|
    ensures var r := SignatureRun(data, off, signatureType, size, listLeft, acc);
            r.Ok? ==> listLeft == Times(|r.value.0| - |acc|, size)
  {
    SignatureStepStrides(data, signatureType, size);
    if SignatureRun(data, off, signatureType, size, listLeft, acc).Ok? {
      StrideCount(SignatureStep(signatureType, size), size, data, off, listLeft, acc);
    }
  }

  /** Entry `i` of a decoded run is the signature data decoded from exactly
      the `i`-th `size`-byte slice of the run. */
  lemma SignatureRunEntry(data: bytes, off: nat, signatureType: Guid, size: nat,
                          listLeft: int, acc: seq<SignatureData>, i: nat)
    requires off <= |data| && SignatureRun(data, off, signatureType, size, listLeft, acc).Ok?
    requires i < |SignatureRun(data, off, signatureType, size, listLeft, acc).value.0| - |acc|
    ensures var start := off + Times(i, size);
            && start + size <= |data|
            && var d := DecodeSignatureData(LookupSignatureHandler(signatureType), data[start..start + size], 0);
               && d.Ok?
               && d.value.0 == SignatureRun(data, off, signatureType, size, listLeft, acc).value.0[|acc| + i]
  {
    var step := SignatureStep(signatureType, size);
    SignatureStepStrides(data, signatureType, size);
    StrideEntry(step, size, data, off, listLeft, acc, i);
    var start := off + Times(i, size);
    SignatureEntryValue(data, start, signatureType, size);
  }

  /** A zero or short signature size cannot make progress: the first entry
      already fails on its owner GUID. */
  lemma ShortSignatureSizeFails(data: bytes, off: nat, signatureType: Guid, size: nat,
                                listLeft: int, acc: seq<SignatureData>)
    requires off <= |data| && size < 16 && listLeft != 0
    ensures SignatureRun(data, off, signatureType, size, listLeft, acc).Err?
  {
    SignatureRunStep(data, off, signatureType, size, listLeft, acc);
  }

  /** The lengths a signature loop accepts: nothing to cover, or a positive
      whole number of entries, each long enough for the owner GUID, within
      the `room` bytes left. */
  predicate SignatureRoom(size: nat, listLeft: int, room: int)
  {
    listLeft == 0 || (16 <= size && 0 < listLeft <= room && listLeft % size == 0)
  }

  /** The signature loop succeeds exactly when its length is one it accepts. */
  lemma {:induction false} SignatureRunOutcome(data: bytes, off: nat, signatureType: Guid, size: nat,
                                               listLeft: int, acc: seq<SignatureData>)
    requires off <= |data|
    ensures SignatureRun(data, off, signatureType, size, listLeft, acc).Ok?
            <==> SignatureRoom(size, listLeft, |data| - off)
    decreases |data| - off
  {
    var r := SignatureRun(data, off, signatureType, size, listLeft, acc);
    if listLeft != 0 {
      SignatureRunStep(data, off, signatureType, size, listLeft, acc);
      SignatureEntryValue(data, off, signatureType, size);
      var e := SignatureEntry(data, off, signatureType, size);
      if e.Ok? {
        SignatureRunOutcome(data, off + size, signatureType, size, listLeft - size, acc + [e.value.0]);
        SignatureRoomStep(size, listLeft, |data| - off);
      } else {
        SignatureRoomShort(size, listLeft, |data| - off);
      }
    }
  }

  /** After one entry the loop accepts the rest exactly when it accepted the whole. */
  lemma SignatureRoomStep(size: nat, listLeft: int, room: int)
    requires listLeft != 0 && 16 <= size <= room
    ensures SignatureRoom(size, listLeft - size, room - size) <==> SignatureRoom(size, listLeft, room)
  {
    if listLeft > size {
      ModLessOne(listLeft, size);
    } else if 0 < listLeft < size {
      ModBelow(listLeft, size);
    }
  }

  /** Without room for one entry of at least 16 bytes nothing but an empty
      length is accepted. */
  lemma SignatureRoomShort(size: nat, listLeft: int, room: int)
    requires listLeft != 0 && !(16 <= size <= room)
    ensures !SignatureRoom(size, listLeft, room)
  {
    if 0 < listLeft < size {
      ModBelow(listLeft, size);
    }
  }

  /** Removing one entry keeps the remainder. */
  lemma ModLessOne(a: int, b: int)
    requires 0 < b < a
    ensures (a - b) % b == a % b
  {
    var q, r := a / b, a % b;
    var q', r' := (a - b) / b, (a - b) % b;
    assert b * (q - 1 - q') == r' - r by {
      assert a == b * q + r && a - b == b * q' + r';
    }
    var k := q - 1 - q';
    if k > 0 {
      MulAtLeast(b, k);
    } else if k < 0 {
      MulAtLeast(b, -k);
    }
  }

  /** A positive multiple of `b` is at least `b`. */
  lemma {:induction false} MulAtLeast(b: nat, k: nat)
    requires 0 < k
    ensures b <= b * k
    decreases k
  {
    if k > 1 {
      MulAtLeast(b, k - 1);
      assert b * k == b * (k - 1) + b;
    }
  }

  /** A length shorter than one entry is not a whole number of entries. */
  lemma ModBelow(a: int, b: int)
    requires 0 < a < b
    ensures a % b == a
  {
  }

  /** A negative remaining length never reaches zero. */
  lemma NegativeListLeftFails(data: bytes, off: nat, signatureType: Guid, size: nat,
                              listLeft: int, acc: seq<SignatureData>)
    requires off <= |data| && listLeft < 0
    ensures SignatureRun(data, off, signatureType, size, listLeft, acc).Err?
  {
    SignatureStepStrides(data, signatureType, size);
    StrideNegative(SignatureStep(signatureType, size), size, data, off, listLeft, acc);
  }

  /** The fixed fields of a signature list: type, list size, header size and
      signature size. */
  function ListFields(data: bytes, off: nat): (r: Step<(Guid, nat, nat, nat)>)
    requires off <= |data|
    ensures r.Ok? <==> off + LIST_FIXED_SIZE <= |data|
    ensures r.Ok? ==> r.value == ((data[off..off + 16], LittleEndian(data[off + 16..off + 20]),
                                   LittleEndian(data[off + 20..off + 24]), LittleEndian(data[off + 24..off + 28])),
                                  off + LIST_FIXED_SIZE)
  {
    var (signatureType, o1) :- B.GetGuid(data, off);
    var (listSize, o2) :- B.GetUint32(data, o1);
    var (headerSize, o3) :- B.GetUint32(data, o2);
    var (size, o4) :- B.GetUint32(data, o3);
    Ok(((signatureType, listSize, headerSize, size), o4))
  }

  /** What follows the fixed fields of a list: `header_size` header bytes,
      then the signature loop over `listLeft` bytes. The two readings of
      `SignatureList.parse` below differ only in the `listLeft` they pass. */
  function ListBody(data: bytes, o1: nat, fields: (Guid, nat, nat, nat), listLeft: int): (r: Step<SignatureList>)
    requires o1 <= |data|
    ensures r.Ok? <==> o1 + fields.2 <= |data| && SignatureRoom(fields.3, listLeft, |data| - o1 - fields.2)
    ensures r.Ok? ==> var (signatureType, _, headerSize, size) := fields;
                      && o1 + headerSize <= |data|
                      && r.value.0.signatureType == signatureType
                      && r.value.0.signatureHeader == data[o1..o1 + headerSize]
                      && Times(|r.value.0.signatures|, size) == listLeft
                      && r.value.1 == o1 + headerSize + listLeft <= |data|
  {
    var (signatureType, _, headerSize, size) := fields;
    var (header, o2) :- B.GetBytes(data, o1, headerSize);
    SignatureRunOutcome(data, o2, signatureType, size, listLeft, []);
    var (sigs, o3) :- SignatureRun(data, o2, signatureType, size, listLeft, []);
    SignatureRunCount(data, o2, signatureType, size, listLeft, []);
    Ok((SignatureList(signatureType, header, sigs), o3))
  }

  /** `SignatureList.parse` as written: the header bytes are read, but only
      the fixed fields are subtracted from the list size, so the signature
      loop also covers `header_size` bytes past the end of the list. */
  function SignatureListAsWritten(data: bytes, off: nat): (r: Step<SignatureList>)
    requires off <= |data|
    ensures r.Ok? <==> ListFields(data, off).Ok? && var f := ListFields(data, off).value.0;
                       off + LIST_FIXED_SIZE + f.2 <= |data|
                       && SignatureRoom(f.3, f.1 - LIST_FIXED_SIZE, |data| - off - LIST_FIXED_SIZE - f.2)
    ensures r.Ok? ==> ListFields(data, off).Ok? && var f := ListFields(data, off).value.0;
                      off + LIST_FIXED_SIZE + f.2 <= |data|
                      && r.value.0.signatureType == f.0
                      && r.value.0.signatureHeader == data[off + LIST_FIXED_SIZE..off + LIST_FIXED_SIZE + f.2]
                      && Times(|r.value.0.signatures|, f.3) == f.1 - LIST_FIXED_SIZE
                      && r.value.1 == off + f.2 + f.1
  {
    var (fields, o1) :- ListFields(data, off);
    ListBody(data, o1, fields, fields.1 - LIST_FIXED_SIZE)
  }

  /** A list that occupies exactly its `SignatureListSize` bytes, as the
      UEFI Specification lays it out, does not decode as written once its
      header is non-empty. */
  lemma NonEmptyHeaderFailsAsWritten(data: bytes, off: nat)
    requires off + LIST_FIXED_SIZE <= |data|
    requires LittleEndian(data[off + 16..off + 20]) == |data| - off
    requires LittleEndian(data[off + 20..off + 24]) > 0
    ensures SignatureListAsWritten(data, off).Err?
  {
  }

  /** `SignatureList.parse` with the header counted inside the list size, as
      section 32.4.1 defines `SignatureListSize`: the loop covers
      `list_size - 28 - header_size` bytes. */
  function DecodeSignatureList(data: bytes, off: nat): (r: Step<SignatureList>)
    requires off <= |data|
    ensures r.Ok? <==> ListFields(data, off).Ok? && var f := ListFields(data, off).value.0;
                       off + LIST_FIXED_SIZE + f.2 <= |data|
                       && SignatureRoom(f.3, f.1 - LIST_FIXED_SIZE - f.2, |data| - off - LIST_FIXED_SIZE - f.2)
    ensures r.Ok? ==> off + LIST_FIXED_SIZE <= r.value.1 <= |data|
  {
    var (fields, o1) :- ListFields(data, off);
    ListBody(data, o1, fields, fields.1 - LIST_FIXED_SIZE - fields.2)
  }

  /** A decoded list keeps its type and header bytes, holds as many
      signatures of `signature_size` bytes as fit in the list size less the
      fixed fields and the header, and ends where its list size says. */
  lemma DecodeSignatureListValue(data: bytes, off: nat)
    requires off <= |data| && DecodeSignatureList(data, off).Ok?
    ensures var r := DecodeSignatureList(data, off);
            ListFields(data, off).Ok? && var f := ListFields(data, off).value.0;
            && off + LIST_FIXED_SIZE + f.2 <= |data|
            && r.value.0.signatureType == f.0
            && r.value.0.signatureHeader == data[off + LIST_FIXED_SIZE..off + LIST_FIXED_SIZE + f.2]
            && Times(|r.value.0.signatures|, f.3) == f.1 - LIST_FIXED_SIZE - f.2
            && r.value.1 == off + f.1 && LIST_FIXED_SIZE + f.2 <= f.1
  {
    var (fields, o1) := ListFields(data, off).value;
    assert DecodeSignatureList(data, off) == ListBody(data, o1, fields, fields.1 - LIST_FIXED_SIZE - fields.2);
  }

  /** With an empty header the two readings of the list size coincide. */
  lemma EmptyHeaderAgrees(data: bytes, off: nat)
    requires off + LIST_FIXED_SIZE <= |data| && LittleEndian(data[off + 20..off + 24]) == 0
    ensures SignatureListAsWritten(data, off) == DecodeSignatureList(data, off)
  {
    assert ListFields(data, off).value.0.2 == 0;
  }

  /** `DecodeSignatureList` may be run at every offset and moves at least
      the fixed fields on. */
  lemma SignatureListAdvances(data: bytes)
    ensures Advances(DecodeSignatureList, data, LIST_FIXED_SIZE)
  {
  }

  /** The `SignaturesVariable.parse` loop: signature lists while bytes remain. */
  function SignatureListRun(data: bytes, off: nat, acc: seq<SignatureList>): (r: Step<seq<SignatureList>>)
    requires off <= |data|
    ensures r.Ok? ==> r.value.1 == |data|
    ensures r.Ok? ==> |acc| <= |r.value.0| && r.value.0[..|acc|] == acc
    ensures r.Ok? ==> LIST_FIXED_SIZE * (|r.value.0| - |acc|) <= |data| - off
  {
    SignatureListAdvances(data);
    Fill(DecodeSignatureList, LIST_FIXED_SIZE, data, off, acc)
  }

  /** `SignaturesVariable.parse`: a signature database fills its buffer. */
  function SignaturesVariable(data: bytes, off: nat): (r: Step<seq<SignatureList>>)
    requires off <= |data|
    ensures r.Ok? ==> r.value.1 == |data| && LIST_FIXED_SIZE * |r.value.0| <= |data| - off
  {
    SignatureListRun(data, off, [])
  }

  /** The lists of a signature database are read one after another: list
      `i` is the list `DecodeSignatureList` reads where list `i - 1` ended
      (the first at `off`), and the last ends at the end of the buffer. */
  lemma SignaturesVariableLists(data: bytes, off: nat)
    requires off <= |data| && SignaturesVariable(data, off).Ok?
    ensures var lists := SignaturesVariable(data, off).value.0;
            && (forall i | 0 <= i < |lists| ::
                  DecodeSignatureList(data, FillStart(DecodeSignatureList, LIST_FIXED_SIZE, data, off, [], i))
                  == Ok((lists[i], FillStart(DecodeSignatureList, LIST_FIXED_SIZE, data, off, [], i + 1))))
            && FillStart(DecodeSignatureList, LIST_FIXED_SIZE, data, off, [], 0) == off
            && FillStart(DecodeSignatureList, LIST_FIXED_SIZE, data, off, [], |lists|) == |data|
  {
    SignatureListAdvances(data);
    FillTiles(DecodeSignatureList, LIST_FIXED_SIZE, data, off);
  }

  /** The converse: lists that lie back to back from `off` to the end of
      the buffer are exactly what the loop reads, after the lists it had. */
  lemma SignatureListRunOfTiling(data: bytes, off: nat, acc: seq<SignatureList>, starts: seq<nat>,
                                 lists: seq<SignatureList>)
    requires off <= |data| && Tiling(DecodeSignatureList, data, off, starts, lists)
    ensures SignatureListRun(data, off, acc) == Ok((acc + lists, |data|))
  {
    SignatureListAdvances(data);
    FillOfTiling(DecodeSignatureList, LIST_FIXED_SIZE, data, off, acc, starts, lists);
  }

  /** Lists that lie back to back from `off` to the end of the buffer decode
      as a signature database of exactly those lists. */
  lemma SignaturesVariableOfTiling(data: bytes, off: nat, starts: seq<nat>, lists: seq<SignatureList>)
    requires off <= |data| && Tiling(DecodeSignatureList, data, off, starts, lists)
    ensures SignaturesVariable(data, off) == Ok((lists, |data|))
  {
    SignatureListRunOfTiling(data, off, [], starts, lists);
    assert [] + lists == lists;
  }

  // ----------------------------------------------- variable-authority event

  /** The payload of an EV_EFI_VARIABLE_AUTHORITY event. */
  datatype VariableAuthority = VariableAuthority(variableName: Guid, unicodeName: bytes,
                                                 variableData: SignatureData)

  /** `UEFI_EV_EFI_VariableAuthorityEvent.parse`: the variable record, its
      data decoded as an unknown signature whatever the variable, and no
      payload bytes left over. */
  function VariableAuthorityEvent(data: bytes, off: nat): (r: Step<VariableAuthority>)
    requires off <= |data|
    ensures r.Ok? <==> var v := B.VariableRecordFields(data, off);
                       v.Ok? && v.value.1 == |data| && 16 <= |v.value.0.variableData|
    ensures r.Ok? ==> var v := B.VariableRecordFields(data, off).value.0;
                      r.value.1 == |data| && r.value.0.variableName == v.variableName
                      && r.value.0.unicodeName == v.unicodeName
                      && r.value.0.variableData == UnknownSignature(v.variableData[..16], v.variableData[16..])
    ensures var v := B.VariableRecordFields(data, off);
            v.Ok? && 16 <= |v.value.0.variableData| && v.value.1 < |data|
            ==> r == Err(NotConsumed(|data| - v.value.1))
  {
    var (v, next) :- B.VariableRecordFields(data, off);
    var (sig, _) :- DecodeSignatureData(UnknownSignatureHandler, v.variableData, 0);
    if next < |data| then Err(NotConsumed(|data| - next))
    else Ok((VariableAuthority(v.variableName, v.unicodeName, sig), next))
  }
}
