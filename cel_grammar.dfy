/** The TCG Canonical Event Log TLV encoding as pure decoding steps.
    Every field is a 1-byte type, a 4-byte big-endian length and that many
    value bytes. Each function reads `data` from offset `off` and yields the
    decoded value with the offset after it; `CelParser.TlvParser` runs the
    same steps as methods that advance a cursor. */
module CelGrammar {
  import opened Common

  // CELBaseType
  const RECNUM := 0
  const PCR := 1
  const NV_INDEX := 2
  const DIGESTS := 3

  // CELContentType, in declaration order
  const CONTENT_CEL := 4
  const CONTENT_PCCLIENT_STD := 5
  const CONTENT_IMA_TEMPLATE := 7
  const CONTENT_TYPES: seq<int> := [4, 5, 7]

  // CELMgmtType, in declaration order
  const CEL_VERSION := 1
  const FIRMWARE_END := 2
  const CEL_TIMESTAMP := 0x80
  const STATE_TRANS := 0x81
  const MGMT_TYPES: seq<int> := [1, 2, 0x80, 0x81]

  // StateTransType
  const STATE_TRANS_TYPES: seq<int> := [0, 1, 2]

  // CELVersionType
  const MAJOR := 0
  const MINOR := 1
  const VERSION_TYPES: seq<int> := [0, 1]

  // CELPCClientSTDType
  const EVENT_TYPE := 0
  const EVENT_DATA := 1
  const PCCLIENT_STD_TYPES: seq<int> := [0, 1]

  // CELIMATemplateType
  const TEMPLATE_NAME := 0
  const TEMPLATE_DATA := 1
  const IMA_TEMPLATE_TYPES: seq<int> := [0, 1]

  datatype ContentType = Cel | PcClientStd | ImaTemplate
  datatype MgmtType = CelVersion | FirmwareEnd | CelTimestamp | StateTrans
  datatype StateTransType = Suspend | Hibernate | Kexec

  /** `CELContentType(code)` for a code already checked against the set. */
  function ContentTypeOf(code: int): (c: ContentType)
    requires code in CONTENT_TYPES
    ensures CONTENT_TYPES[if c.Cel? then 0 else if c.PcClientStd? then 1 else 2] == code
  {
    if code == CONTENT_CEL then Cel
    else if code == CONTENT_PCCLIENT_STD then PcClientStd
    else ImaTemplate
  }

  /** `StateTransType(code)`: suspend, hibernate or kexec, else a value error. */
  function StateTransFromCode(code: int): (r: Result<StateTransType>)
    ensures r.Ok? <==> code in STATE_TRANS_TYPES
    ensures r.Err? ==> r.error == UnexpectedType(code, STATE_TRANS_TYPES)
    ensures r == Ok(Suspend) <==> code == 0
    ensures r == Ok(Kexec) <==> code == 2
  {
    if code == 0 then Ok(Suspend)
    else if code == 1 then Ok(Hibernate)
    else if code == 2 then Ok(Kexec)
    else Err(UnexpectedType(code, STATE_TRANS_TYPES))
  }

  /** The fields every CEL record carries (`CELEvent`). The handle's own type
      (pcr or nv_index) is not kept. */
  datatype Header = Header(
    recnum: nat,
    handle: nat,
    digests: map<DigestAlgorithm, bytes>,
    contentType: ContentType)

  /** The closed set of CEL records. */
  datatype Event =
    | VersionEvent(header: Header, major: int, minor: int)
    | FirmwareEndEvent(header: Header)
    | TimestampEvent(header: Header, timestamp: nat)
    | StateTransEvent(header: Header, stateTrans: StateTransType)
    | PcClientStdEvent(header: Header, eventType: int, eventData: bytes)
    | ImaTemplateEvent(header: Header, templateName: bytes, templateData: bytes)
  {
    predicate IsManagement() {
      VersionEvent? || FirmwareEndEvent? || TimestampEvent? || StateTransEvent?
    }

    /** The `type` field of a management record. */
    function Type(): MgmtType
      requires IsManagement()
    {
      match this
      case VersionEvent(_, _, _) => CelVersion
      case FirmwareEndEvent(_) => FirmwareEnd
      case TimestampEvent(_, _) => CelTimestamp
      case StateTransEvent(_, _) => StateTrans
    }
  }

  /** `list.remove(x)`: drop the first occurrence of `x`. */
  function Remove(s: seq<int>, x: int): (r: seq<int>)
    requires x in s
    ensures |r| == |s| - 1
    ensures multiset(r) == multiset(s) - multiset{x}
  {
    assert s == [s[0]] + s[1..];
    if s[0] == x then s[1..] else [s[0]] + Remove(s[1..], x)
  }

  /** Every value of `left` is `a` or `b`: an expect list of a two-field loop. */
  predicate OnlyTypes(left: seq<int>, a: int, b: int)
  {
    forall x | x in left :: x == a || x == b
  }

  /** Removing a value keeps a list within its two types. */
  lemma RemoveOnlyTypes(s: seq<int>, x: int, a: int, b: int)
    requires x in s
    ensures OnlyTypes(s, a, b) ==> OnlyTypes(Remove(s, x), a, b)
  {
    forall y | y in Remove(s, x)
      ensures y in s
    {
      assert y in multiset(Remove(s, x));
    }
  }

  /** Removing `x` leaves every other value's membership as it was. */
  lemma RemoveKeeps(s: seq<int>, x: int, y: int)
    requires x in s && y != x
    ensures y in Remove(s, x) <==> y in s
  {
    assert y in multiset(Remove(s, x)) <==> y in multiset(s);
  }

  // ------------------------------------------------------------ primitives

  /** `get_bytes(size)` */
  function GetBytes(data: bytes, off: nat, size: nat): (r: Step<bytes>)
    requires off <= |data|
    ensures r.Ok? <==> size <= |data| - off
    ensures r.Err? ==> r.error == ShortBuffer(off, size, |data| - off)
    ensures r.Ok? ==> r.value.1 == off + size && r.value.0 == data[off..off + size]
  {
    if size > |data| - off then Err(ShortBuffer(off, size, |data| - off))
    else Ok((data[off..off + size], off + size))
  }

  /** `get_int(size, max_size)`: the width is checked before anything is read. */
  function GetInt(data: bytes, off: nat, size: nat, maxSize: nat): (r: Step<nat>)
    requires off <= |data|
    ensures size > maxSize ==> r == Err(ValueTooLarge(size, maxSize))
    ensures r.Ok? ==> size <= maxSize && r.value.1 == off + size <= |data|
    ensures r.Ok? ==> r.value.0 == BigEndian(data[off..off + size]) < Pow256(size)
  {
    if size > maxSize then Err(ValueTooLarge(size, maxSize))
    else
      var (b, next) :- GetBytes(data, off, size);
      BigEndianBound(b);
      Ok((BigEndian(b), next))
  }

  /** The length field of the TLV header at `p`: bytes `p + 1` to `p + 4` as a
      big-endian integer, written out (`TlvLengthIsBigEndian`). */
  function TlvLength(data: bytes, p: nat): nat
    requires p + 5 <= |data|
  {
    ((data[p + 1] as int * 256 + data[p + 2]) * 256 + data[p + 3]) * 256 + data[p + 4]
  }

  lemma TlvLengthIsBigEndian(data: bytes, p: nat)
    requires p + 5 <= |data|
    ensures TlvLength(data, p) == BigEndian(data[p + 1..p + 5])
  {
    BigEndian4(data[p + 1..p + 5]);
  }

  /** `get_tl(allowed)`: reads the 5-byte header; a non-empty `allowed` must hold the type. */
  function GetTl(data: bytes, off: nat, allowed: seq<int>): (r: Step<(int, nat)>)
    requires off <= |data|
    ensures r.Ok? ==> r.value.1 == off + 5 <= |data|
    ensures r.Ok? ==> r.value.0 == (data[off], TlvLength(data, off))
    ensures r.Ok? && |allowed| > 0 ==> data[off] in allowed
    ensures off + 5 > |data| ==> r == Err(ShortBuffer(off, 5, |data| - off))
    ensures off + 5 <= |data| && |allowed| > 0 && data[off] !in allowed ==>
              r == Err(UnexpectedType(data[off], allowed))
  {
    var (b, next) :- GetBytes(data, off, 5);
    var t := b[0] as int;
    if |allowed| > 0 && t !in allowed then Err(UnexpectedType(t, allowed))
    else Ok(((t, TlvLength(data, off)), next))
  }

  /** `get_tlv_int(max_size, allowed)`: a TLV header and then its value as an integer. */
  function GetTlvInt(data: bytes, off: nat, maxSize: nat, allowed: seq<int>): (r: Step<(int, nat)>)
    requires off <= |data|
    ensures r.Ok? ==> off + 5 <= |data| && r.value.0.0 == data[off]
    ensures r.Ok? && |allowed| > 0 ==> data[off] in allowed
    ensures r.Ok? ==> TlvLength(data, off) <= maxSize && r.value.1 == off + 5 + TlvLength(data, off) <= |data|
    ensures r.Ok? ==> r.value.0.1 == BigEndian(data[off + 5..r.value.1])
  {
    var ((t, vl), o) :- GetTl(data, off, allowed);
    var (v, next) :- GetInt(data, o, vl, maxSize);
    Ok(((t, v), next))
  }

  // --------------------------------------------------------------- digests

  /** The `while left > 0` loop of `get_digests`: `left` counts down the
      container bytes not yet covered by entries; a later entry for the same
      algorithm replaces an earlier one. */
  function DigestEntries(data: bytes, off: nat, left: int, digs: map<DigestAlgorithm, bytes>)
    : (r: Step<map<DigestAlgorithm, bytes>>)
    requires off <= |data|
    decreases |data| - off
    ensures r.Ok? ==> left >= 0 && r.value.1 == off + left <= |data|
  {
    if left <= 0 then
      if left != 0 then Err(DigestsLengthMismatch(left)) else Ok((digs, off))
    else
      var ((a, vl), o) :- GetTl(data, off, ALGORITHM_CODES);
      var (dig, next) :- GetBytes(data, o, vl);
      var da := AlgorithmFromCode(a).value;
      DigestEntries(data, next, left - (5 + vl), digs[da := dig])
  }

  /** `get_digests()`: a digests container whose entries fill it exactly. */
  function GetDigests(data: bytes, off: nat): (r: Step<map<DigestAlgorithm, bytes>>)
    requires off <= |data|
    ensures r.Ok? ==> off + 5 <= |data| && data[off] == DIGESTS
    ensures r.Ok? ==> r.value.1 == TlvEnd(data, off) <= |data| && DigestTiling(data, off + 5, TlvEnd(data, off))
    ensures r.Ok? ==> r.value.0 == Apply(map[], DigestPairs(data, off + 5, TlvEnd(data, off)))
  {
    var ((_, vl), o) :- GetTl(data, off, [DIGESTS]);
    var r := DigestEntries(data, o, vl, map[]);
    if r.Ok? then
      var end := TlvEnd(data, off);
      assert end - o == vl;
      DigestEntriesTiles(data, o, end, map[]);
      DigestEntriesMap(data, o, end, map[]);
      r
    else r
  }

  // ------------------------------------------------------- content grammars

  /** The `while left:` loop of `parse_mgmt_version_event`; `left` holds the
      version field types not yet seen, so each is accepted once. */
  function VersionFields(data: bytes, off: nat, left: seq<int>, major: int, minor: int)
    : (r: Step<(int, int)>)
    requires off <= |data|
    decreases |left|
    ensures r.Ok? ==> off <= r.value.1 <= |data|
  {
    if |left| == 0 then Ok(((major, minor), off))
    else
      var ((t, v), next) :- GetTlvInt(data, off, 2, left);
      var rest := Remove(left, t);
      if t == MAJOR then VersionFields(data, next, rest, v, minor)
      else VersionFields(data, next, rest, major, v)
  }

  /** `parse_mgmt_version_event(header)`: both version fields, then nothing. */
  function ParseMgmtVersionEvent(data: bytes, off: nat, header: Header): (r: Step<Event>)
    requires off <= |data|
    ensures r.Ok? ==> r.value.1 == |data| && r.value.0.VersionEvent? && r.value.0.header == header
  {
    var ((major, minor), next) :- VersionFields(data, off, VERSION_TYPES, -1, -1);
    if |data| - next > 0 then Err(NotConsumed(|data| - next))
    else
      Ok((VersionEvent(header, major, minor), next))
  }

  /** The version record holds the values of its `major` and `minor` TLVs,
      read as big-endian integers, in whichever order they came. */
  lemma ParseMgmtVersionEventValue(data: bytes, off: nat, header: Header)
    requires off <= |data| && ParseMgmtVersionEvent(data, off, header).Ok?
    ensures FieldsCover(data, off, VERSION_TYPES, |data|)
    ensures ParseMgmtVersionEvent(data, off, header).value.0 == VersionEvent(header,
                                                BigEndian(CoverValue(data, off, VERSION_TYPES, |data|, MAJOR)),
                                                BigEndian(CoverValue(data, off, VERSION_TYPES, |data|, MINOR)))
  {
    VersionFieldsValues(data, off, VERSION_TYPES, -1, -1);
  }

  /** `parse_mgmt_event(header)`: one management TLV; its payload is not
      checked for trailing bytes, and `firmware_end` reads no value bytes. */
  function ParseMgmtEvent(data: bytes, off: nat, header: Header): (r: Step<Event>)
    requires off <= |data|
    ensures r.Ok? ==> off + 5 <= |data| && data[off] in MGMT_TYPES
    ensures r.Ok? ==> r.value.0.IsManagement() && r.value.0.header == header
    ensures r.Ok? && data[off] == FIRMWARE_END ==> r.value == (FirmwareEndEvent(header), off + 5)
    ensures r.Ok? && data[off] != FIRMWARE_END ==> r.value.1 == TlvEnd(data, off) <= |data|
  {
    var ((t, vl), o) :- GetTl(data, off, MGMT_TYPES);
    if t == CEL_VERSION then
      var (sub, next) :- GetBytes(data, o, vl);
      var (event, _) :- ParseMgmtVersionEvent(sub, 0, header);
      Ok((event, next))
    else if t == FIRMWARE_END then
      Ok((FirmwareEndEvent(header), o))
    else if t == CEL_TIMESTAMP then
      var (timestamp, next) :- GetInt(data, o, vl, 8);
      Ok((TimestampEvent(header, timestamp), next))
    else
      // GetTl leaves only state_trans here
      var (code, next) :- GetInt(data, o, vl, 1);
      var stateTrans :- StateTransFromCode(code);
      Ok((StateTransEvent(header, stateTrans), next))
  }

  /** A `cel_version` TLV inside the buffer is an event exactly when its
      value parses as a version record, and it carries that record. */
  lemma ParseMgmtVersionValue(data: bytes, off: nat, header: Header)
    requires off + 5 <= |data| && data[off] == CEL_VERSION && TlvEnd(data, off) <= |data|
    ensures ParseMgmtEvent(data, off, header).Ok? <==> ParseMgmtVersionEvent(TlvValue(data, off), 0, header).Ok?
    ensures ParseMgmtEvent(data, off, header).Ok? ==>
              ParseMgmtEvent(data, off, header).value
              == (ParseMgmtVersionEvent(TlvValue(data, off), 0, header).value.0, TlvEnd(data, off))
  {
    var vl := TlvLength(data, off);
    assert GetTl(data, off, MGMT_TYPES) == Ok(((CEL_VERSION, vl), off + 5));
    assert GetBytes(data, off + 5, vl) == Ok((TlvValue(data, off), TlvEnd(data, off)));
  }

  /** A `cel_timestamp` TLV inside the buffer is an event exactly when its
      value has at most 8 bytes, and it carries that value read big-endian. */
  lemma ParseMgmtTimestampValue(data: bytes, off: nat, header: Header)
    requires off + 5 <= |data| && data[off] == CEL_TIMESTAMP && TlvEnd(data, off) <= |data|
    ensures ParseMgmtEvent(data, off, header).Ok? <==> TlvLength(data, off) <= 8
    ensures ParseMgmtEvent(data, off, header).Ok? ==>
              ParseMgmtEvent(data, off, header).value
              == (TimestampEvent(header, BigEndian(TlvValue(data, off))), TlvEnd(data, off))
  {
    var vl := TlvLength(data, off);
    assert GetTl(data, off, MGMT_TYPES) == Ok(((CEL_TIMESTAMP, vl), off + 5));
    if vl <= 8 {
      assert GetInt(data, off + 5, vl, 8) == Ok((BigEndian(TlvValue(data, off)), TlvEnd(data, off)));
    }
  }

  /** A `state_trans` event carries the transition whose code is its value
      of at most one byte, and fails on a longer value or an unknown code. */
  lemma ParseMgmtStateTransValue(data: bytes, off: nat, header: Header)
    requires off + 5 <= |data| && data[off] == STATE_TRANS && TlvEnd(data, off) <= |data|
    ensures ParseMgmtEvent(data, off, header).Ok?
            <==> TlvLength(data, off) <= 1 && StateTransFromCode(BigEndian(TlvValue(data, off))).Ok?
    ensures ParseMgmtEvent(data, off, header).Ok? ==>
              ParseMgmtEvent(data, off, header).value
              == (StateTransEvent(header, StateTransFromCode(BigEndian(TlvValue(data, off))).value), TlvEnd(data, off))
  {
    var vl := TlvLength(data, off);
    assert GetTl(data, off, MGMT_TYPES) == Ok(((STATE_TRANS, vl), off + 5));
    if vl <= 1 {
      assert GetInt(data, off + 5, vl, 1) == Ok((BigEndian(TlvValue(data, off)), TlvEnd(data, off)));
    }
  }

  /** The `while left:` loop of `parse_pcclient_std_event`. */
  function PcClientStdFields(data: bytes, off: nat, left: seq<int>, eventType: int, eventData: bytes)
    : (r: Step<(int, bytes)>)
    requires off <= |data|
    decreases |left|
    ensures r.Ok? ==> off <= r.value.1 <= |data|
  {
    if |left| == 0 then Ok(((eventType, eventData), off))
    else
      var ((t, vl), o) :- GetTl(data, off, left);
      var rest := Remove(left, t);
      if t == EVENT_TYPE then
        var (v, next) :- GetInt(data, o, vl, 4);
        PcClientStdFields(data, next, rest, v, eventData)
      else
        var (b, next) :- GetBytes(data, o, vl);
        PcClientStdFields(data, next, rest, eventType, b)
  }

  /** `parse_pcclient_std_event(header)` */
  function ParsePcClientStdEvent(data: bytes, off: nat, header: Header): (r: Step<Event>)
    requires off <= |data|
    ensures r.Ok? ==> r.value.1 == |data| && r.value.0.PcClientStdEvent? && r.value.0.header == header
  {
    var ((eventType, eventData), next) :- PcClientStdFields(data, off, PCCLIENT_STD_TYPES, -1, []);
    if |data| - next > 0 then Err(NotConsumed(|data| - next))
    else
      Ok((PcClientStdEvent(header, eventType, eventData), next))
  }

  /** The PC Client event holds the value of its `event_type` TLV, read as a
      big-endian integer, and the raw bytes of its `event_data` TLV. */
  lemma ParsePcClientStdEventValue(data: bytes, off: nat, header: Header)
    requires off <= |data| && ParsePcClientStdEvent(data, off, header).Ok?
    ensures FieldsCover(data, off, PCCLIENT_STD_TYPES, |data|)
    ensures ParsePcClientStdEvent(data, off, header).value.0 == PcClientStdEvent(header,
                                                BigEndian(CoverValue(data, off, PCCLIENT_STD_TYPES, |data|, EVENT_TYPE)),
                                                CoverValue(data, off, PCCLIENT_STD_TYPES, |data|, EVENT_DATA))
  {
    PcClientStdFieldsValues(data, off, PCCLIENT_STD_TYPES, -1, []);
  }

  /** The `while left:` loop of `parse_ima_template_event`. */
  function ImaTemplateFields(data: bytes, off: nat, left: seq<int>, name: bytes, template: bytes)
    : (r: Step<(bytes, bytes)>)
    requires off <= |data|
    decreases |left|
    ensures r.Ok? ==> off <= r.value.1 <= |data|
  {
    if |left| == 0 then Ok(((name, template), off))
    else
      var ((t, vl), o) :- GetTl(data, off, left);
      var rest := Remove(left, t);
      var (b, next) :- GetBytes(data, o, vl);
      if t == TEMPLATE_NAME then ImaTemplateFields(data, next, rest, b, template)
      else ImaTemplateFields(data, next, rest, name, b)
  }

  /** `parse_ima_template_event(header)` */
  function ParseImaTemplateEvent(data: bytes, off: nat, header: Header): (r: Step<Event>)
    requires off <= |data|
    ensures r.Ok? ==> r.value.1 == |data| && r.value.0.ImaTemplateEvent? && r.value.0.header == header
  {
    var ((name, template), next) :- ImaTemplateFields(data, off, IMA_TEMPLATE_TYPES, [], []);
    if |data| - next > 0 then Err(NotConsumed(|data| - next))
    else
      Ok((ImaTemplateEvent(header, name, template), next))
  }

  /** The IMA template event holds the raw bytes of its `template_name` and
      `template_data` TLVs. */
  lemma ParseImaTemplateEventValue(data: bytes, off: nat, header: Header)
    requires off <= |data| && ParseImaTemplateEvent(data, off, header).Ok?
    ensures FieldsCover(data, off, IMA_TEMPLATE_TYPES, |data|)
    ensures ParseImaTemplateEvent(data, off, header).value.0 == ImaTemplateEvent(header,
                                                CoverValue(data, off, IMA_TEMPLATE_TYPES, |data|, TEMPLATE_NAME),
                                                CoverValue(data, off, IMA_TEMPLATE_TYPES, |data|, TEMPLATE_DATA))
  {
    ImaTemplateFieldsValues(data, off, IMA_TEMPLATE_TYPES, [], []);
  }

  /** The content grammar selected by the content type, over its own sub-buffer. */
  function ParseContent(sub: bytes, header: Header): (r: Step<Event>)
    ensures r.Ok? ==> r.value.0.header == header
    ensures r.Ok? ==> match header.contentType
                      case Cel => r.value.0.IsManagement()
                      case PcClientStd => r.value.0.PcClientStdEvent?
                      case ImaTemplate => r.value.0.ImaTemplateEvent?
  {
    match header.contentType
    case Cel => ParseMgmtEvent(sub, 0, header)
    case PcClientStd => ParsePcClientStdEvent(sub, 0, header)
    case ImaTemplate => ParseImaTemplateEvent(sub, 0, header)
  }

  /** The first half of `parse_event()`: recnum, handle, digests and the
      content TLV header; yields the header and the content length. */
  function ParseHeader(data: bytes, off: nat): (r: Step<(Header, nat)>)
    requires off <= |data|
    ensures r.Ok? ==> off + 5 <= |data| && data[off] == RECNUM && TlvLength(data, off) <= 8
    ensures r.Ok? ==> TlvEnd(data, off) <= |data| && r.value.0.0.recnum == BigEndian(TlvValue(data, off))
    ensures r.Ok? ==> TlvEnd(data, off) < r.value.1 <= |data|
  {
    var ((_, recnum), o1) :- GetTlvInt(data, off, 8, [RECNUM]);
    var ((_, handle), o2) :- GetTlvInt(data, o1, 4, [PCR, NV_INDEX]);
    var (digests, o3) :- GetDigests(data, o2);
    var ((ct, cl), o4) :- GetTl(data, o3, CONTENT_TYPES);
    Ok(((Header(recnum, handle, digests, ContentTypeOf(ct)), cl), o4))
  }

  /** After the recnum TLV come a handle TLV of type pcr or nv_index holding
      at most 4 bytes, whose big-endian value is the handle; the digest
      container, whose map is the header's digests; and the content type
      and length, after which the content value starts. */
  lemma ParseHeaderValue(data: bytes, off: nat)
    requires off <= |data| && ParseHeader(data, off).Ok?
    ensures var r := ParseHeader(data, off);
            var o1 := TlvEnd(data, off);
            && o1 + 5 <= |data| && data[o1] in [PCR, NV_INDEX] && TlvLength(data, o1) <= 4
            && TlvEnd(data, o1) <= |data| && r.value.0.0.handle == BigEndian(TlvValue(data, o1))
            && var o2 := TlvEnd(data, o1);
            && GetDigests(data, o2).Ok? && r.value.0.0.digests == GetDigests(data, o2).value.0
            && var o3 := GetDigests(data, o2).value.1;
            && o3 + 5 <= |data| && data[o3] in CONTENT_TYPES
            && r.value.0.0.contentType == ContentTypeOf(data[o3])
            && r.value.0.1 == TlvLength(data, o3) && r.value.1 == o3 + 5
  {
    var (recnum, o1) := GetTlvInt(data, off, 8, [RECNUM]).value;
    assert o1 == TlvEnd(data, off);
    var h := GetTlvInt(data, o1, 4, [PCR, NV_INDEX]);
    assert h.Ok? && h.value.1 == TlvEnd(data, o1);
    var (handle, o2) := h.value;
    assert data[o1] in [PCR, NV_INDEX] && TlvLength(data, o1) <= 4;
    assert handle.1 == BigEndian(TlvValue(data, o1));
    var (digests, o3) := GetDigests(data, o2).value;
    var t := GetTl(data, o3, CONTENT_TYPES);
    assert t.Ok?;
    var ((ct, cl), o4) := t.value;
    assert ct == data[o3] && data[o3] in CONTENT_TYPES && cl == TlvLength(data, o3) && o4 == o3 + 5;
    var r := ParseHeader(data, off);
    assert r == Ok(((Header(recnum.1, handle.1, digests, ContentTypeOf(ct)), cl), o4));
    assert r.value.0.0.handle == handle.1 && r.value.0.0.digests == digests;
    assert r.value.0.0.contentType == ContentTypeOf(data[o3]) && r.value.0.1 == cl && r.value.1 == o4;
  }

  /** `parse_event()`: the header fields, then the content value decoded by
      the grammar its content type selects. */
  function ParseEvent(data: bytes, off: nat): (r: Step<Event>)
    requires off <= |data|
    ensures r.Ok? ==> off < r.value.1 <= |data|
  {
    var ((header, cl), o4) :- ParseHeader(data, off);
    var (sub, o5) :- GetBytes(data, o4, cl);
    var (event, _) :- ParseContent(sub, header);
    Ok((event, o5))
  }

  /** An event parses exactly when its header parses, the content TLV's
      value fits in the buffer and the content grammar accepts that value;
      the event is then the one the content grammar built, and the next
      event starts right after the content TLV. */
  lemma ParseEventContent(data: bytes, off: nat)
    requires off <= |data|
    ensures ParseEvent(data, off).Ok? <==>
              ParseHeader(data, off).Ok?
              && var h := ParseHeader(data, off).value;
              && h.1 + h.0.1 <= |data| && ParseContent(data[h.1..h.1 + h.0.1], h.0.0).Ok?
    ensures ParseEvent(data, off).Ok? ==>
              && ParseHeader(data, off).Ok?
              && var h := ParseHeader(data, off).value;
              && h.1 + h.0.1 <= |data| && ParseContent(data[h.1..h.1 + h.0.1], h.0.0).Ok?
              && ParseEvent(data, off).value == (ParseContent(data[h.1..h.1 + h.0.1], h.0.0).value.0, h.1 + h.0.1)
  {
    var ph := ParseHeader(data, off);
    if ph.Ok? {
      var h := ph.value;
      var end := h.1 + h.0.1;
      if end <= |data| {
        var sub := data[h.1..end];
        assert GetBytes(data, h.1, h.0.1) == Ok((sub, end));
        var pc := ParseContent(sub, h.0.0);
        if pc.Ok? {
          assert ParseEvent(data, off) == Ok((pc.value.0, end));
        } else {
          assert ParseEvent(data, off).Err?;
        }
      }
    }
  }

  // ------------------------------------------------------------ properties

  /** The offset just past the TLV whose header starts at `p`. */
  function TlvEnd(data: bytes, p: nat): nat
    requires p + 5 <= |data|
  {
    p + 5 + TlvLength(data, p)
  }

  /** The value bytes of the TLV whose header starts at `p`. */
  function TlvValue(data: bytes, p: nat): (v: bytes)
    requires p + 5 <= |data| && TlvEnd(data, p) <= |data|
    ensures |v| == TlvLength(data, p)
  {
    data[p + 5..TlvEnd(data, p)]
  }

  /** `n` TLVs lie back to back from `p` and the last one ends exactly at `end`. */
  predicate TlvChain(data: bytes, p: nat, n: nat, end: nat)
    decreases n
  {
    if n == 0 then p == end
    else p + 5 <= |data| && TlvChain(data, TlvEnd(data, p), n - 1, end)
  }

  /** TLVs lie back to back from `p` to `end`, the i-th one with a type taken
      from what is still in `left`, each type of `left` used exactly once. */
  predicate FieldsCover(data: bytes, p: nat, left: seq<int>, end: nat)
    decreases |left|
  {
    if |left| == 0 then p == end
    else
      p + 5 <= end <= |data| && data[p] in left
      && FieldsCover(data, TlvEnd(data, p), Remove(left, data[p]), end)
  }

  /** Where a field loop that covered `p` to `end` last read a TLV of type
      `t`: the header of the last such TLV in the cover. */
  function CoverPos(data: bytes, p: nat, left: seq<int>, end: nat, t: int): (q: nat)
    requires FieldsCover(data, p, left, end) && t in left
    ensures p <= q && q + 5 <= |data| && data[q] == t && TlvEnd(data, q) <= end <= |data|
    decreases |left|
  {
    var next := TlvEnd(data, p);
    var rest := Remove(left, data[p]);
    FieldsCoverBounded(data, next, rest, end);
    if data[p] != t then RemoveKeeps(left, data[p], t); CoverPos(data, next, rest, end, t)
    else if t in rest then CoverPos(data, next, rest, end, t)
    else p
  }

  /** The value a field loop that covered `p` to `end` keeps for type `t`. */
  function CoverValue(data: bytes, p: nat, left: seq<int>, end: nat, t: int): bytes
    requires FieldsCover(data, p, left, end) && t in left
  {
    TlvValue(data, CoverPos(data, p, left, end, t))
  }

  /** One TLV more in front of a cover: the loop's value for `t` is that
      TLV's value when it is the last of its type, else what the rest keeps. */
  lemma CoverStep(data: bytes, p: nat, left: seq<int>, end: nat, t: int)
    requires p + 5 <= |data| && data[p] in left && TlvEnd(data, p) <= end <= |data|
    requires FieldsCover(data, TlvEnd(data, p), Remove(left, data[p]), end)
    ensures FieldsCover(data, p, left, end)
    ensures t in left ==>
              var rest := Remove(left, data[p]);
              if data[p] == t && t !in rest then CoverValue(data, p, left, end, t) == TlvValue(data, p)
              else t in rest && CoverValue(data, p, left, end, t) == CoverValue(data, TlvEnd(data, p), rest, end, t)
  {
    if t in left && data[p] != t {
      RemoveKeeps(left, data[p], t);
    }
  }

  /** The (algorithm, digest) entries of a tiled digests container, in order. */
  function DigestPairs(data: bytes, p: nat, end: nat): seq<(DigestAlgorithm, bytes)>
    requires DigestTiling(data, p, end)
    decreases end - p
  {
    if p == end then []
    else [(AlgorithmFromCode(data[p]).value, TlvValue(data, p))] + DigestPairs(data, TlvEnd(data, p), end)
  }

  /** The digest entries from `p` fill its container up to `end` exactly, each
      with an algorithm code and lying wholly inside the container. */
  predicate DigestTiling(data: bytes, p: nat, end: nat)
    decreases end - p
  {
    p == end
    || (p + 5 <= end <= |data| && data[p] in ALGORITHM_CODES
        && TlvEnd(data, p) <= end && DigestTiling(data, TlvEnd(data, p), end))
  }

  /** The digest loop succeeds exactly when its entries tile the `left` bytes of
      the container: every entry is (5 + length) bytes, and their sum is `left`. */
  lemma DigestEntriesTile(data: bytes, off: nat, left: int, digs: map<DigestAlgorithm, bytes>)
    requires off <= |data|
    ensures DigestEntries(data, off, left, digs).Ok?
            <==> left >= 0 && off + left <= |data| && DigestTiling(data, off, off + left)
  {
    assert (off + left) - off == left;
    if DigestEntries(data, off, left, digs).Ok? {
      DigestEntriesTiles(data, off, off + left, digs);
    }
    if left >= 0 && off + left <= |data| && DigestTiling(data, off, off + left) {
      DigestEntriesMap(data, off, off + left, digs);
    }
  }

  /** One turn of the digest loop, for an entry that is readable. */
  lemma DigestStep(data: bytes, off: nat, end: int, digs: map<DigestAlgorithm, bytes>)
      returns (next: nat, digs': map<DigestAlgorithm, bytes>)
    requires off < end && off + 5 <= |data| && data[off] in ALGORITHM_CODES && TlvEnd(data, off) <= |data|
    ensures next == TlvEnd(data, off) && digs' == digs[AlgorithmFromCode(data[off]).value := data[off + 5..next]]
    ensures DigestEntries(data, off, end - off, digs) == DigestEntries(data, next, end - next, digs')
  {
    var vl := TlvLength(data, off);
    var o := off + 5;
    next := o + vl;
    digs' := digs[AlgorithmFromCode(data[off]).value := data[o..next]];
    assert GetTl(data, off, ALGORITHM_CODES) == Ok(((data[off] as int, vl), o));
    assert GetBytes(data, o, vl) == Ok((data[o..next], next));
    assert (end - off) - (5 + vl) == end - next;
  }

  /** What the digest loop builds: on a tiled container it succeeds, returns
      the given map with each entry's (algorithm, digest) assigned in order,
      and ends at the container's end. */
  lemma {:induction false} DigestEntriesMap(data: bytes, off: nat, end: nat, digs: map<DigestAlgorithm, bytes>)
    requires off <= end <= |data| && DigestTiling(data, off, end)
    ensures DigestEntries(data, off, end - off, digs) == Ok((Apply(digs, DigestPairs(data, off, end)), end))
    decreases end - off
  {
    if off < end {
      var next, digs' := DigestStep(data, off, end, digs);
      DigestEntriesMap(data, next, end, digs');
      ApplyFirst(digs, (AlgorithmFromCode(data[off]).value, TlvValue(data, off)), DigestPairs(data, next, end));
    }
  }

  lemma {:induction false} DigestEntriesTiles(data: bytes, off: nat, end: int, digs: map<DigestAlgorithm, bytes>)
    requires off <= |data|
    requires DigestEntries(data, off, end - off, digs).Ok?
    ensures off <= end && DigestTiling(data, off, end)
    decreases |data| - off
  {
    if off < end {
      DigestEntryReads(data, off, end - off, digs);
      var next, digs' := DigestStep(data, off, end, digs);
      DigestEntriesTiles(data, next, end, digs');
    }
  }

  /** An entry the digest loop reads has an algorithm code and fits the buffer. */
  lemma DigestEntryReads(data: bytes, off: nat, left: int, digs: map<DigestAlgorithm, bytes>)
    requires off <= |data| && left > 0 && DigestEntries(data, off, left, digs).Ok?
    ensures off + 5 <= |data| && data[off] in ALGORITHM_CODES && TlvEnd(data, off) <= |data|
  {
  }


  /** What the version loop decodes: the TLVs it read cover its span, and a
      field still pending holds the big-endian value of its TLV. */
  lemma {:induction false} VersionFieldsValues(data: bytes, off: nat, left: seq<int>, major: int, minor: int)
    requires off <= |data| && OnlyTypes(left, MAJOR, MINOR)
    requires VersionFields(data, off, left, major, minor).Ok?
    ensures var ((ma, mi), end) := VersionFields(data, off, left, major, minor).value;
            && FieldsCover(data, off, left, end)
            && ma == (if MAJOR in left then BigEndian(CoverValue(data, off, left, end, MAJOR)) else major)
            && mi == (if MINOR in left then BigEndian(CoverValue(data, off, left, end, MINOR)) else minor)
    decreases |left|
  {
    if |left| > 0 {
      var ((t, v), next) := GetTlvInt(data, off, 2, left).value;
      var rest := Remove(left, t);
      RemoveOnlyTypes(left, t, MAJOR, MINOR);
      RemoveKeeps(left, t, if t == MAJOR then MINOR else MAJOR);
      if t == MAJOR {
        VersionFieldsValues(data, next, rest, v, minor);
      } else {
        VersionFieldsValues(data, next, rest, major, v);
      }
      var end := VersionFields(data, off, left, major, minor).value.1;
      assert next == TlvEnd(data, off) && v == BigEndian(TlvValue(data, off));
      CoverStep(data, off, left, end, MAJOR);
      CoverStep(data, off, left, end, MINOR);
    }
  }

  /** What the PC Client loop decodes: the TLVs it read cover its span,
      event_type is the big-endian value of its TLV and event_data the bytes of its. */
  lemma {:induction false} PcClientStdFieldsValues(data: bytes, off: nat, left: seq<int>, eventType: int, eventData: bytes)
    requires off <= |data| && OnlyTypes(left, EVENT_TYPE, EVENT_DATA)
    requires PcClientStdFields(data, off, left, eventType, eventData).Ok?
    ensures var ((et, ed), end) := PcClientStdFields(data, off, left, eventType, eventData).value;
            && FieldsCover(data, off, left, end)
            && et == (if EVENT_TYPE in left then BigEndian(CoverValue(data, off, left, end, EVENT_TYPE)) else eventType)
            && ed == (if EVENT_DATA in left then CoverValue(data, off, left, end, EVENT_DATA) else eventData)
    decreases |left|
  {
    if |left| > 0 {
      PcClientStdFirst(data, off, left, eventType, eventData);
      var et', ed' := PcClientStdStep(data, off, left, eventType, eventData);
      var t := data[off] as int;
      var rest := Remove(left, t);
      RemoveOnlyTypes(left, t, EVENT_TYPE, EVENT_DATA);
      RemoveKeeps(left, t, if t == EVENT_TYPE then EVENT_DATA else EVENT_TYPE);
      PcClientStdFieldsValues(data, TlvEnd(data, off), rest, et', ed');
      var end := PcClientStdFields(data, off, left, eventType, eventData).value.1;
      CoverStep(data, off, left, end, EVENT_TYPE);
      CoverStep(data, off, left, end, EVENT_DATA);
    }
  }

  /** The first field of a successful PC Client loop is an allowed TLV
      inside the buffer, and an event_type value fits in 4 bytes. */
  lemma PcClientStdFirst(data: bytes, off: nat, left: seq<int>, eventType: int, eventData: bytes)
    requires off <= |data| && |left| > 0
    requires PcClientStdFields(data, off, left, eventType, eventData).Ok?
    ensures off + 5 <= |data| && data[off] in left && TlvEnd(data, off) <= |data|
    ensures data[off] == EVENT_TYPE ==> TlvLength(data, off) <= 4
  {
    var tl := GetTl(data, off, left);
    assert tl.Ok?;
    if data[off] == EVENT_TYPE {
      assert GetInt(data, off + 5, TlvLength(data, off), 4).Ok?;
    } else {
      assert GetBytes(data, off + 5, TlvLength(data, off)).Ok?;
    }
  }

  /** One turn of the PC Client loop, for a field that is readable. */
  lemma PcClientStdStep(data: bytes, off: nat, left: seq<int>, eventType: int, eventData: bytes)
      returns (et': int, ed': bytes)
    requires off <= |data| && |left| > 0
    requires off + 5 <= |data| && data[off] in left && TlvEnd(data, off) <= |data|
    requires data[off] == EVENT_TYPE ==> TlvLength(data, off) <= 4
    ensures data[off] == EVENT_TYPE ==> et' == BigEndian(TlvValue(data, off)) && ed' == eventData
    ensures data[off] != EVENT_TYPE ==> et' == eventType && ed' == TlvValue(data, off)
    ensures PcClientStdFields(data, off, left, eventType, eventData)
            == PcClientStdFields(data, TlvEnd(data, off), Remove(left, data[off]), et', ed')
  {
    var vl := TlvLength(data, off);
    var o := off + 5;
    var next := o + vl;
    var b := data[o..next];
    assert GetTl(data, off, left) == Ok(((data[off] as int, vl), o));
    if data[off] == EVENT_TYPE {
      assert GetInt(data, o, vl, 4) == Ok((BigEndian(b), next));
      et', ed' := BigEndian(b), eventData;
    } else {
      assert GetBytes(data, o, vl) == Ok((b, next));
      et', ed' := eventType, b;
    }
  }

  /** What the IMA template loop decodes: the TLVs it read cover its span, and
      template_name and template_data are the bytes of their TLVs. */
  lemma {:induction false} ImaTemplateFieldsValues(data: bytes, off: nat, left: seq<int>, name: bytes, template: bytes)
    requires off <= |data| && OnlyTypes(left, TEMPLATE_NAME, TEMPLATE_DATA)
    requires ImaTemplateFields(data, off, left, name, template).Ok?
    ensures var h := ImaTemplateFields(data, off, left, name, template).value;
            && FieldsCover(data, off, left, h.1)
            && h.0.0 == (if TEMPLATE_NAME in left then CoverValue(data, off, left, h.1, TEMPLATE_NAME) else name)
            && h.0.1 == (if TEMPLATE_DATA in left then CoverValue(data, off, left, h.1, TEMPLATE_DATA) else template)
    decreases |left|
  {
    if |left| > 0 {
      ImaTemplateFirst(data, off, left, name, template);
      var next := TlvEnd(data, off);
      var rest := Remove(left, data[off]);
      RemoveOnlyTypes(left, data[off], TEMPLATE_NAME, TEMPLATE_DATA);
      var n', t' := ImaTemplateStep(data, off, left, name, template);
      ImaTemplateFieldsValues(data, next, rest, n', t');
      var h := ImaTemplateFields(data, next, rest, n', t').value;
      FieldValueStep(data, off, left, h.1, TEMPLATE_NAME, name, n', h.0.0);
      FieldValueStep(data, off, left, h.1, TEMPLATE_DATA, template, t', h.0.1);
    }
  }

  /** One TLV more in front of a cover, for the value a loop keeps for type
      `t`: `v0` before the TLV, `v1` after it and `v` at the end of the loop. */
  lemma FieldValueStep(data: bytes, p: nat, left: seq<int>, end: nat, t: int, v0: bytes, v1: bytes, v: bytes)
    requires p + 5 <= |data| && data[p] in left && TlvEnd(data, p) <= end <= |data|
    requires FieldsCover(data, TlvEnd(data, p), Remove(left, data[p]), end)
    requires v1 == if data[p] == t then TlvValue(data, p) else v0
    requires v == if t in Remove(left, data[p]) then CoverValue(data, TlvEnd(data, p), Remove(left, data[p]), end, t) else v1
    ensures FieldsCover(data, p, left, end)
    ensures v == if t in left then CoverValue(data, p, left, end, t) else v0
  {
    CoverStep(data, p, left, end, t);
    if data[p] != t {
      RemoveKeeps(left, data[p], t);
    }
  }

  /** The IMA template loop succeeds exactly when one template_name and one
      template_data TLV lie back to back inside the buffer, in either order. */
  lemma ImaTemplateFieldsCover(data: bytes, off: nat, left: seq<int>, name: bytes, template: bytes, end: nat)
    requires off <= |data|
    ensures ImaTemplateFields(data, off, left, name, template).Ok? ==>
              FieldsCover(data, off, left, ImaTemplateFields(data, off, left, name, template).value.1)
    ensures FieldsCover(data, off, left, end) ==>
              ImaTemplateFields(data, off, left, name, template).Ok?
              && ImaTemplateFields(data, off, left, name, template).value.1 == end
  {
    if ImaTemplateFields(data, off, left, name, template).Ok? {
      ImaTemplateFieldsCovers(data, off, left, name, template);
    }
    if FieldsCover(data, off, left, end) {
      ImaTemplateCoverSucceeds(data, off, left, name, template, end);
    }
  }

  lemma {:induction false} ImaTemplateFieldsCovers(data: bytes, off: nat, left: seq<int>, name: bytes, template: bytes)
    requires off <= |data|
    requires ImaTemplateFields(data, off, left, name, template).Ok?
    ensures FieldsCover(data, off, left, ImaTemplateFields(data, off, left, name, template).value.1)
    decreases |left|
  {
    if |left| > 0 {
      ImaTemplateFirst(data, off, left, name, template);
      var next := TlvEnd(data, off);
      var n', t' := ImaTemplateStep(data, off, left, name, template);
      ImaTemplateFieldsCovers(data, next, Remove(left, data[off]), n', t');
    }
  }

  /** The first field of a successful IMA template loop is an allowed TLV
      inside the buffer. */
  lemma ImaTemplateFirst(data: bytes, off: nat, left: seq<int>, name: bytes, template: bytes)
    requires off <= |data| && |left| > 0
    requires ImaTemplateFields(data, off, left, name, template).Ok?
    ensures off + 5 <= |data| && data[off] in left && TlvEnd(data, off) <= |data|
  {
    var tl := GetTl(data, off, left);
    assert tl.Ok?;
    assert GetBytes(data, off + 5, TlvLength(data, off)).Ok?;
  }

  /** One turn of the IMA template loop, for a field that is readable. */
  lemma ImaTemplateStep(data: bytes, off: nat, left: seq<int>, name: bytes, template: bytes)
      returns (n': bytes, t': bytes)
    requires off <= |data| && |left| > 0
    requires off + 5 <= |data| && data[off] in left && TlvEnd(data, off) <= |data|
    ensures var b := data[off + 5..TlvEnd(data, off)];
            (n', t') == (if data[off] == TEMPLATE_NAME then (b, template) else (name, b))
    ensures ImaTemplateFields(data, off, left, name, template)
            == ImaTemplateFields(data, TlvEnd(data, off), Remove(left, data[off]), n', t')
  {
    var vl := TlvLength(data, off);
    var o := off + 5;
    var next := o + vl;
    var b := data[o..next];
    assert GetTl(data, off, left) == Ok(((data[off] as int, vl), o));
    assert GetBytes(data, o, vl) == Ok((b, next));
    if data[off] == TEMPLATE_NAME { n', t' := b, template; } else { n', t' := name, b; }
  }

  lemma {:induction false} ImaTemplateCoverSucceeds(data: bytes, off: nat, left: seq<int>, name: bytes, template: bytes, end: nat)
    requires off <= |data|
    requires FieldsCover(data, off, left, end)
    ensures ImaTemplateFields(data, off, left, name, template).Ok?
    ensures ImaTemplateFields(data, off, left, name, template).value.1 == end
    decreases |left|
  {
    if |left| > 0 {
      var next := TlvEnd(data, off);
      var rest := Remove(left, data[off]);
      FieldsCoverBounded(data, next, rest, end);
      var n', t' := ImaTemplateStep(data, off, left, name, template);
      ImaTemplateCoverSucceeds(data, next, rest, n', t', end);
    }
  }

  lemma {:induction false} FieldsCoverBounded(data: bytes, p: nat, left: seq<int>, end: nat)
    requires FieldsCover(data, p, left, end)
    ensures p <= end
  {
  }

  /** A successful record is exactly four TLVs back to back (recnum, handle,
      digests, content), so the record ends where its content value ends. */
  lemma ParseEventIsFourTlvs(data: bytes, off: nat)
    requires off <= |data|
    ensures ParseEvent(data, off).Ok? ==> TlvChain(data, off, 4, ParseEvent(data, off).value.1)
  {
    if ParseEvent(data, off).Ok? {
      var r1 := GetTlvInt(data, off, 8, [RECNUM]);
      assert r1.Ok?;
      var o1 := r1.value.1;
      var r2 := GetTlvInt(data, o1, 4, [PCR, NV_INDEX]);
      assert r2.Ok?;
      var o2 := r2.value.1;
      var r3 := GetDigests(data, o2);
      assert r3.Ok?;
      var o3 := r3.value.1;
      var r4 := GetTl(data, o3, CONTENT_TYPES);
      assert r4.Ok?;
      var end := ParseEvent(data, off).value.1;
      assert end == TlvEnd(data, o3);
      assert TlvChain(data, o3, 1, end);
      assert o3 == TlvEnd(data, o2);
      assert TlvChain(data, o2, 2, end);
      assert o2 == TlvEnd(data, o1);
      assert TlvChain(data, o1, 3, end);
      assert o1 == TlvEnd(data, off);
    }
  }

  // -------------------------------------------------------------- examples

  /** A 2-byte read from a 1-byte buffer reports offset 0, 2 requested, 1 left. */
  lemma ShortBufferExample()
    ensures GetBytes([0], 0, 2) == Err(ShortBuffer(0, 2, 1))
  {
  }

  /** A 5-byte integer with a 2-byte maximum is refused before any read. */
  lemma ValueTooLargeExample()
    ensures GetInt([0, 0, 0, 0, 0], 0, 5, 2) == Err(ValueTooLarge(5, 2))
  {
  }

  /** A TLV header that reads: its length is bytes 1..4 as a big-endian integer. */
  lemma GetTlAt(data: bytes, off: nat, allowed: seq<int>)
    requires off + 5 <= |data| && (|allowed| == 0 || data[off] in allowed)
    ensures GetTl(data, off, allowed) == Ok(((data[off] as int, BigEndian(data[off + 1..off + 5])), off + 5))
  {
    TlvLengthIsBigEndian(data, off);
  }

  /** Once `minor` has been read, only `major` is accepted: a type 255 next is
      reported against the list holding major alone. */
  lemma VersionAfterMinorExample()
    ensures ParseMgmtVersionEvent([1, 0, 0, 0, 1, 0, 255, 0, 0, 0, 1, 2], 0, Header(0, 1, map[], Cel))
            == Err(UnexpectedType(255, [MAJOR]))
  {
    var data: bytes := [1, 0, 0, 0, 1, 0, 255, 0, 0, 0, 1, 2];
    assert data[5..6] == [0];
    assert GetTlvInt(data, 0, 2, VERSION_TYPES) == Ok(((MINOR, 0), 6));
    assert Remove(VERSION_TYPES, MINOR) == [MAJOR];
    assert GetTl(data, 6, [MAJOR]) == Err(UnexpectedType(255, [MAJOR]));
  }

  /** A version payload with a byte after both fields is not wholly consumed. */
  lemma VersionExtraByteExample()
    ensures ParseMgmtVersionEvent([0, 0, 0, 0, 1, 2, 1, 0, 0, 0, 1, 0, 0xFF], 0, Header(0, 1, map[], Cel))
            == Err(NotConsumed(1))
  {
    var data: bytes := [0, 0, 0, 0, 1, 2, 1, 0, 0, 0, 1, 0, 0xFF];
    assert data[5..6] == [2];
    assert Remove(VERSION_TYPES, MAJOR) == [MINOR];
    assert data[11..12] == [0];
    assert Remove([MINOR], MINOR) == [];
    assert GetTlvInt(data, 0, 2, VERSION_TYPES) == Ok(((MAJOR, 2), 6));
    assert GetTlvInt(data, 6, 2, [MINOR]) == Ok(((MINOR, 0), 12));
    assert VersionFields(data, 12, [], 2, 0) == Ok(((2, 0), 12));
    assert VersionFields(data, 6, [MINOR], 2, -1) == Ok(((2, 0), 12));
    assert VersionFields(data, 0, VERSION_TYPES, -1, -1) == Ok(((2, 0), 12));
  }

  /** A later digest for the same algorithm replaces the earlier one. */
  lemma RepeatedDigestExample()
    ensures GetDigests([3, 0, 0, 0, 12, 4, 0, 0, 0, 1, 0xAA, 4, 0, 0, 0, 1, 0xBB], 0)
            == Ok((map[Sha1 := [0xBB]], 17))
  {
    var data: bytes := [3, 0, 0, 0, 12, 4, 0, 0, 0, 1, 0xAA, 4, 0, 0, 0, 1, 0xBB];
    assert data[10..11] == [0xAA];
    assert data[16..17] == [0xBB];
    assert map[Sha1 := [0xAA]][Sha1 := [0xBB]] == map[Sha1 := [0xBB]];
    assert DigestEntries(data, 11, 6, map[Sha1 := [0xAA]]) == Ok((map[Sha1 := [0xBB]], 17));
    assert DigestEntries(data, 5, 12, map[]) == Ok((map[Sha1 := [0xBB]], 17));
  }
}
