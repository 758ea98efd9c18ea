/** The cursor-driven UEFI event-log reader. A `UefiParser` owns a buffer and
    an offset into it, plus the decoding context of its log: the `uintn`
    code and the digest size of each algorithm, both replaced by the Spec ID
    header. Each method performs the `UefiBase` step of the same name at the
    current offset and moves the offset past what it read. */
module UefiParser {
  import opened Common
  import G = UefiBase

  class UefiParser {
    const data: bytes
    var offset: nat
    var uintn: int
    var digestSizes: map<DigestAlgorithm, nat>

    predicate Valid()
      reads this
    {
      offset <= |data|
    }

    /** The number of unparsed bytes (`left`). */
    function Left(): nat
      reads this
      requires Valid()
    {
      |data| - offset
    }

    /** The decoding context this parser currently reads with. */
    function Context(): G.Context
      reads this
    {
      G.Context(uintn, digestSizes)
    }

    constructor(data: bytes)
      ensures this.data == data && offset == 0 && Valid()
      ensures Context() == G.INITIAL_CONTEXT
    {
      this.data := data;
      offset := 0;
      uintn := 2;
      digestSizes := map[];
    }

    /** `uintn_size` */
    method UintnSize() returns (r: Result<nat>)
      ensures r == G.UintnSize(uintn)
    {
      if uintn == 2 {
        return Ok(8);
      } else if uintn == 1 {
        return Ok(4);
      }
      return Err(UnsupportedUintn(uintn));
    }

    /** `get_bytes(size)`; a failed read leaves the offset where it was. */
    method GetBytes(size: int) returns (r: Result<bytes>)
      requires Valid()
      modifies this`offset
      ensures Valid()
      ensures Tracks(r, offset, G.GetBytes(data, old(offset), size))
      ensures r.Err? ==> offset == old(offset)
    {
      if size > Left() {
        return Err(ShortBuffer(offset, size, Left()));
      } else if size < 0 {
        return Err(NegativeSize(size));
      }
      r := Ok(data[offset..offset + size]);
      offset := offset + size;
    }

    /** `get_int(size)` */
    method GetInt(size: nat) returns (r: Result<nat>)
      requires Valid()
      modifies this`offset
      ensures Valid()
      ensures Tracks(r, offset, G.GetInt(data, old(offset), size))
      ensures r.Err? ==> offset == old(offset)
    {
      var b :- GetBytes(size);
      return Ok(LittleEndian(b));
    }

    /** `get_uint32()` */
    method GetUint32() returns (r: Result<nat>)
      requires Valid()
      modifies this`offset
      ensures Valid()
      ensures Tracks(r, offset, G.GetUint32(data, old(offset)))
      ensures r.Err? ==> offset == old(offset)
    {
      r := GetInt(4);
    }

    /** `get_len_bytes()` */
    method GetLenBytes() returns (r: Result<bytes>)
      requires Valid()
      modifies this`offset
      ensures Valid()
      ensures Tracks(r, offset, G.GetLenBytes(data, old(offset)))
    {
      var n :- GetUint32();
      r := GetBytes(n);
    }

    /** `get_subparser(data)`: a new parser over `sub` that inherits this
        parser's `uintn` code but starts with no digest sizes. */
    method GetSubparser(sub: bytes) returns (p: UefiParser)
      ensures fresh(p) && p.data == sub && p.offset == 0 && p.Valid()
      ensures p.Context() == G.Context(uintn, map[])
    {
      p := new UefiParser(sub);
      p.uintn := uintn;
    }

    /** `get_guid()` */
    method GetGuid() returns (r: Result<Guid>)
      requires Valid()
      modifies this`offset
      ensures Valid()
      ensures Tracks(r, offset, G.GetGuid(data, old(offset)))
    {
      r := GetBytes(16);
    }

    /** The variable record the variable and variable-authority events both
        start with: GUID, name length, data length, name, data. */
    method VariableRecord() returns (r: Result<G.VariableRecord>)
      requires Valid()
      modifies this`offset
      ensures Valid()
      ensures Tracks(r, offset, G.VariableRecordFields(data, old(offset)))
    {
      var variableName :- GetGuid();
      var unlen :- GetInt(8);
      var vdlen :- GetInt(8);
      var unicodeName :- GetBytes(unlen * 2);
      var vdata :- GetBytes(vdlen);
      return Ok(G.VariableRecord(variableName, unicodeName, vdata));
    }

    /** `get_utf16()`: 2-byte units are appended until a `00 00` unit has been appended. */
    method GetUtf16() returns (r: Result<bytes>)
      requires Valid()
      modifies this`offset
      ensures Valid()
      ensures Tracks(r, offset, G.GetUtf16(data, old(offset)))
    {
      var b: bytes := [];
      while true
        invariant Valid()
        invariant G.Utf16Run(data, offset, b) == G.Utf16Run(data, old(offset), [])
        decreases Left()
      {
        var c :- GetBytes(2);
        b := b + c;
        if c == [0, 0] {
          return Ok(b);
        }
      }
    }

    /** `get_digests()`: the entry count counts down as entries are read. */
    method GetDigests() returns (r: Result<map<DigestAlgorithm, bytes>>)
      requires Valid()
      modifies this`offset
      ensures Valid()
      ensures Tracks(r, offset, G.GetDigests(data, old(offset), digestSizes))
    {
      var count :- GetUint32();
      var digests: map<DigestAlgorithm, bytes> := map[];
      ghost var start := offset;
      ghost var total := count;
      while count > 0
        invariant Valid()
        invariant G.DigestRun(data, offset, count, digestSizes, digests)
                  == G.DigestRun(data, start, total, digestSizes, map[])
        decreases count
      {
        ghost var here := offset;
        var algid :- GetInt(2);
        var alg :- AlgorithmFromCode(algid);
        if alg !in digestSizes {
          return Err(MissingAlgorithm(alg));
        }
        var digest :- GetBytes(digestSizes[alg]);
        assert G.DigestRun(data, here, count, digestSizes, digests)
               == G.DigestRun(data, offset, count - 1, digestSizes, digests[alg := digest]);
        digests := digests[alg := digest];
        count := count - 1;
      }
      return Ok(digests);
    }

    /** The header's algorithm table; the entry count counts down as entries are read. */
    method DigestSizeTable() returns (r: Result<map<DigestAlgorithm, nat>>)
      requires Valid()
      modifies this`offset
      ensures Valid()
      ensures Tracks(r, offset, G.DigestSizeTable(data, old(offset)))
    {
      var count :- GetUint32();
      var sizes: map<DigestAlgorithm, nat> := map[];
      ghost var start := offset;
      ghost var total := count;
      while count > 0
        invariant Valid()
        invariant G.DigestSizeRun(data, offset, count, sizes) == G.DigestSizeRun(data, start, total, map[])
        decreases count
      {
        ghost var here := offset;
        var algid :- GetInt(2);
        var algsize :- GetInt(2);
        var alg :- AlgorithmFromCode(algid);
        assert G.DigestSizeRun(data, here, count, sizes) == G.DigestSizeRun(data, offset, count - 1, sizes[alg := algsize]);
        sizes := sizes[alg := algsize];
        count := count - 1;
      }
      return Ok(sizes);
    }

    /** The TCG_EfiSpecIdEvent fields, as `parse_header_event` reads them from its sub-parser. */
    method SpecIdFields() returns (r: Result<G.SpecId>)
      requires Valid()
      modifies this`offset
      ensures Valid()
      ensures Tracks(r, offset, G.SpecIdFields(data, old(offset)))
    {
      var signature :- GetBytes(16);
      var platformClass :- GetUint32();
      var minor :- GetInt(1);
      var major :- GetInt(1);
      var errata :- GetInt(1);
      var uintnSize :- GetInt(1);
      var sizes :- DigestSizeTable();
      var vendorInfoSize :- GetInt(1);
      return Ok(G.SpecId(signature, platformClass, minor, major, errata, uintnSize, sizes, vendorInfoSize));
    }

    /** The reads `parse_header_event` makes before it touches the context. */
    method HeaderRead() returns (r: Result<G.HeaderFields>)
      requires Valid()
      modifies this`offset
      ensures Valid()
      ensures Tracks(r, offset, G.HeaderRead(data, old(offset)))
    {
      var pcr :- GetUint32();
      var eventType :- GetUint32();
      var digest :- GetBytes(20);
      var subdata :- GetLenBytes();
      var sub := GetSubparser(subdata);
      var spec :- sub.SpecIdFields();
      return Ok(G.HeaderFields(pcr, eventType, digest, spec));
    }

    /** `parse_header_event()`: reads the Spec ID header, replaces this
        parser's context with the header's once the structure has been read,
        and only then checks the event type. */
    method ParseHeaderEvent() returns (r: Result<G.SpecIdEvent>)
      requires Valid()
      modifies this
      ensures Valid()
      ensures Tracks(r, offset, G.ParseHeaderEvent(data, old(offset)))
      ensures var h := G.HeaderRead(data, old(offset));
              Context() == if h.Ok? then G.HeaderContext(h.value.0) else old(Context())
    {
      var h :- HeaderRead();
      uintn := h.spec.uintnSize;
      digestSizes := h.spec.digestSizes;
      var checked :- G.EventType(h.eventType);
      return Ok(G.SpecIdEvent(h.pcr, checked, map[Sha1 := h.digest], h.spec));
    }
  }
}
