/** The cursor-driven CEL decoder. A `TlvParser` owns a buffer and an offset
    into it; each method performs the `CelGrammar` step of the same name at
    the current offset and moves the offset past what it read. Content
    payloads are decoded by a fresh parser over a copy of exactly the content
    bytes, so offsets inside them count from that payload's start. */
module CelParser {
  import opened Common
  import G = CelGrammar

  class TlvParser {
    const data: bytes
    var offset: nat

    predicate Valid()
      reads this
    {
      offset <= |data|
    }

    /** The number of unparsed bytes (`left`). */
    function Left(): nat
      reads this
      requires Valid()
    {
      |data| - offset
    }

    constructor(data: bytes)
      ensures this.data == data && offset == 0 && Valid()
    {
      this.data := data;
      offset := 0;
    }

    /** `get_bytes(size)`; a failed read leaves the offset where it was. */
    method GetBytes(size: nat) returns (r: Result<bytes>)
      requires Valid()
      modifies this
      ensures Valid()
      ensures Tracks(r, offset, G.GetBytes(data, old(offset), size))
      ensures r.Err? ==> offset == old(offset)
    {
      if size > Left() {
        return Err(ShortBuffer(offset, size, Left()));
      }
      r := Ok(data[offset..offset + size]);
      offset := offset + size;
    }

    /** `get_int(size, max_size)` */
    method GetInt(size: nat, maxSize: nat) returns (r: Result<nat>)
      requires Valid()
      modifies this
      ensures Valid()
      ensures Tracks(r, offset, G.GetInt(data, old(offset), size, maxSize))
      ensures r.Err? ==> offset == old(offset)
    {
      if size > maxSize {
        return Err(ValueTooLarge(size, maxSize));
      }
      var b :- GetBytes(size);
      return Ok(BigEndian(b));
    }

    /** `get_tl(expect)` */
    method GetTl(allowed: seq<int>) returns (r: Result<(int, nat)>)
      requires Valid()
      modifies this
      ensures Valid()
      ensures Tracks(r, offset, G.GetTl(data, old(offset), allowed))
    {
      var b :- GetBytes(5);
      var t := b[0] as int;
      if |allowed| > 0 && t !in allowed {
        return Err(UnexpectedType(t, allowed));
      }
      G.TlvLengthIsBigEndian(data, old(offset));
      assert b[1..5] == data[old(offset) + 1..old(offset) + 5];
      return Ok((t, BigEndian(b[1..5])));
    }

    /** `get_tlv_int(max_size, expect)` */
    method GetTlvInt(maxSize: nat, allowed: seq<int>) returns (r: Result<(int, nat)>)
      requires Valid()
      modifies this
      ensures Valid()
      ensures Tracks(r, offset, G.GetTlvInt(data, old(offset), maxSize, allowed))
    {
      var tl :- GetTl(allowed);
      var (t, vl) := tl;
      var v :- GetInt(vl, maxSize);
      return Ok((t, v));
    }

    /** `get_digests()`: entries are read while the container's byte count is
        positive; it must then be exactly zero. */
    method GetDigests() returns (r: Result<map<DigestAlgorithm, bytes>>)
      requires Valid()
      modifies this
      ensures Valid()
      ensures Tracks(r, offset, G.GetDigests(data, old(offset)))
    {
      var tl :- GetTl([G.DIGESTS]);
      var (_, vl) := tl;
      ghost var start := offset;
      var left: int := vl;
      var digs: map<DigestAlgorithm, bytes> := map[];
      while left > 0
        invariant Valid()
        invariant G.DigestEntries(data, offset, left, digs) == G.DigestEntries(data, start, vl, map[])
        decreases Left()
      {
        var e :- GetTl(ALGORITHM_CODES);
        var (a, el) := e;
        var dig :- GetBytes(el);
        var da := AlgorithmFromCode(a).value;
        digs := digs[da := dig];
        left := left - (5 + el);
      }
      if left != 0 {
        return Err(DigestsLengthMismatch(left));
      }
      return Ok(digs);
    }

    /** The field loop of `parse_mgmt_version_event`: the version fields in
        any order, each once. */
    method VersionFields() returns (r: Result<(int, int)>)
      requires Valid()
      modifies this
      ensures Valid()
      ensures Tracks(r, offset, G.VersionFields(data, old(offset), G.VERSION_TYPES, -1, -1))
    {
      var left := G.VERSION_TYPES;
      var major: int, minor: int := -1, -1;
      while |left| > 0
        invariant Valid()
        invariant G.VersionFields(data, offset, left, major, minor)
                  == G.VersionFields(data, old(offset), G.VERSION_TYPES, -1, -1)
        decreases |left|
      {
        var tv :- GetTlvInt(2, left);
        var (t, v) := tv;
        left := G.Remove(left, t);
        if t == G.MAJOR {
          major := v;
        } else {
          minor := v;
        }
      }
      return Ok((major, minor));
    }

    /** `parse_mgmt_version_event(header)`: the version fields, and then nothing. */
    method ParseMgmtVersionEvent(header: G.Header) returns (r: Result<G.Event>)
      requires Valid()
      modifies this
      ensures Valid()
      ensures Tracks(r, offset, G.ParseMgmtVersionEvent(data, old(offset), header))
    {
      var version :- VersionFields();
      if Left() > 0 {
        return Err(NotConsumed(Left()));
      }
      return Ok(G.VersionEvent(header, version.0, version.1));
    }

    /** `parse_mgmt_event(header)` */
    method ParseMgmtEvent(header: G.Header) returns (r: Result<G.Event>)
      requires Valid()
      modifies this
      ensures Valid()
      ensures Tracks(r, offset, G.ParseMgmtEvent(data, old(offset), header))
    {
      var tl :- GetTl(G.MGMT_TYPES);
      var (t, vl) := tl;
      if t == G.CEL_VERSION {
        var subdata :- GetBytes(vl);
        var sub := new TlvParser(subdata);
        var event :- sub.ParseMgmtVersionEvent(header);
        return Ok(event);
      } else if t == G.FIRMWARE_END {
        return Ok(G.FirmwareEndEvent(header));
      } else if t == G.CEL_TIMESTAMP {
        var timestamp :- GetInt(vl, 8);
        return Ok(G.TimestampEvent(header, timestamp));
      } else {
        var code :- GetInt(vl, 1);
        var stateTrans :- G.StateTransFromCode(code);
        return Ok(G.StateTransEvent(header, stateTrans));
      }
    }

    /** `parse_pcclient_std_event(header)` */
    method ParsePcClientStdEvent(header: G.Header) returns (r: Result<G.Event>)
      requires Valid()
      modifies this
      ensures Valid()
      ensures Tracks(r, offset, G.ParsePcClientStdEvent(data, old(offset), header))
    {
      var left := G.PCCLIENT_STD_TYPES;
      var eventType: int, eventData: bytes := -1, [];
      while |left| > 0
        invariant Valid()
        invariant G.PcClientStdFields(data, offset, left, eventType, eventData)
                  == G.PcClientStdFields(data, old(offset), G.PCCLIENT_STD_TYPES, -1, [])
        decreases |left|
      {
        var tl :- GetTl(left);
        var (t, vl) := tl;
        left := G.Remove(left, t);
        if t == G.EVENT_TYPE {
          eventType :- GetInt(vl, 4);
        } else {
          eventData :- GetBytes(vl);
        }
      }
      if Left() > 0 {
        return Err(NotConsumed(Left()));
      }
      return Ok(G.PcClientStdEvent(header, eventType, eventData));
    }

    /** `parse_ima_template_event(header)` */
    method ParseImaTemplateEvent(header: G.Header) returns (r: Result<G.Event>)
      requires Valid()
      modifies this
      ensures Valid()
      ensures Tracks(r, offset, G.ParseImaTemplateEvent(data, old(offset), header))
    {
      var left := G.IMA_TEMPLATE_TYPES;
      var name: bytes, template: bytes := [], [];
      while |left| > 0
        invariant Valid()
        invariant G.ImaTemplateFields(data, offset, left, name, template)
                  == G.ImaTemplateFields(data, old(offset), G.IMA_TEMPLATE_TYPES, [], [])
        decreases |left|
      {
        var tl :- GetTl(left);
        var (t, vl) := tl;
        left := G.Remove(left, t);
        if t == G.TEMPLATE_NAME {
          name :- GetBytes(vl);
        } else {
          template :- GetBytes(vl);
        }
      }
      if Left() > 0 {
        return Err(NotConsumed(Left()));
      }
      return Ok(G.ImaTemplateEvent(header, name, template));
    }

    /** The reads `parse_event()` makes before the content value: recnum,
        handle, digests and the content TLV header. */
    method ParseHeader() returns (r: Result<(G.Header, nat)>)
      requires Valid()
      modifies this
      ensures Valid()
      ensures Tracks(r, offset, G.ParseHeader(data, old(offset)))
    {
      var rn :- GetTlvInt(8, [G.RECNUM]);
      var hd :- GetTlvInt(4, [G.PCR, G.NV_INDEX]);
      var digests :- GetDigests();
      var tl :- GetTl(G.CONTENT_TYPES);
      var (ct, cl) := tl;
      return Ok((G.Header(rn.1, hd.1, digests, G.ContentTypeOf(ct)), cl));
    }

    /** `parse_event()`: one record, its content decoded by a fresh parser. */
    method ParseEvent() returns (r: Result<G.Event>)
      requires Valid()
      modifies this
      ensures Valid()
      ensures Tracks(r, offset, G.ParseEvent(data, old(offset)))
    {
      var hc :- ParseHeader();
      var (header, cl) := hc;
      var subdata :- GetBytes(cl);
      var sub := new TlvParser(subdata);
      var event: G.Event;
      match header.contentType {
        case Cel =>
          event :- sub.ParseMgmtEvent(header);
        case PcClientStd =>
          event :- sub.ParsePcClientStdEvent(header);
        case ImaTemplate =>
          event :- sub.ParseImaTemplateEvent(header);
      }
      return Ok(event);
    }
  }
}
