/** The cursor-driven IMA decoder. An `ImaParser` owns a buffer, an offset
    into it and a byte order; each method performs the `ImaGrammar` step of
    the same name at the current offset and moves the offset past what it
    read. Nested values (the template data, an `xattrlengths` value) are read
    by a fresh parser over exactly those bytes, in the same byte order. */
module ImaParser {
  import opened Common
  import G = ImaGrammar

  class ImaParser {
    const data: bytes
    const order: ByteOrder
    var offset: nat

    predicate Valid()
      reads this
    {
      offset <= |data|
    }

    /** The number of unparsed bytes (`left`). */
    function Left(): nat
      reads this
      requires Valid()
    {
      |data| - offset
    }

    constructor(data: bytes, order: ByteOrder)
      ensures this.data == data && this.order == order && offset == 0 && Valid()
    {
      this.data := data;
      this.order := order;
      offset := 0;
    }

    /** `get_bytes(size)`; a failed read leaves the offset where it was. */
    method GetBytes(size: nat) returns (r: Result<bytes>)
      requires Valid()
      modifies this
      ensures Valid()
      ensures Tracks(r, offset, G.GetBytes(data, old(offset), size))
      ensures r.Err? ==> offset == old(offset)
    {
      if size > Left() {
        return Err(ShortBuffer(offset, size, Left()));
      }
      r := Ok(data[offset..offset + size]);
      offset := offset + size;
    }

    /** `get_uint32()` */
    method GetUint32() returns (r: Result<nat>)
      requires Valid()
      modifies this
      ensures Valid()
      ensures Tracks(r, offset, G.GetUint32(data, old(offset), order))
    {
      var b :- GetBytes(4);
      return Ok(FromBytes(b, order));
    }

    /** `get_len_bytes()` */
    method GetLenBytes() returns (r: Result<bytes>)
      requires Valid()
      modifies this
      ensures Valid()
      ensures Tracks(r, offset, G.GetLenBytes(data, old(offset), order))
    {
      var cl :- GetUint32();
      r := GetBytes(cl);
    }

    /** `get_subparser(data)`: a new parser over `sub` that keeps this one's byte order. */
    method GetSubparser(sub: bytes) returns (p: ImaParser)
      ensures fresh(p) && p.data == sub && p.order == order && p.offset == 0 && p.Valid()
    {
      p := new ImaParser(sub, order);
    }

    /** `parse_field(field_type)`: the length-prefixed value, then its
        decoding; `xattrlengths` reads uint32s from a sub-parser until it is
        exhausted. */
    method ParseField(f: G.Field) returns (r: Result<G.FieldValue>)
      requires Valid()
      modifies this
      ensures Valid()
      ensures Tracks(r, offset, G.ParseField(data, old(offset), order, f))
    {
      var fv :- GetLenBytes();
      if f == G.XattrLengths {
        var sub := GetSubparser(fv);
        var lens: seq<nat> := [];
        ghost var here := offset;
        while sub.Left() > 0
          invariant Valid() && offset == here
          invariant sub.Valid() && sub.data == fv && sub.order == order
          invariant G.XattrLengthRun(fv, sub.offset, order, lens) == G.XattrLengthRun(fv, 0, order, [])
          decreases sub.Left()
        {
          var xl :- sub.GetUint32();
          lens := lens + [xl];
        }
        return Ok(G.XattrLengthsValue(lens));
      } else if f == G.XattrValues {
        return Err(NotImplemented);
      } else {
        var value :- G.DecodeField(f, fv, order);
        return Ok(value);
      }
    }

    /** `parse_fields(field_types)`: one field per kind, appended in order. */
    method ParseFields(kinds: seq<G.Field>) returns (r: Result<seq<G.FieldValue>>)
      requires Valid()
      modifies this
      ensures Valid()
      ensures Tracks(r, offset, G.ParseFields(data, old(offset), order, kinds))
    {
      var fields: seq<G.FieldValue> := [];
      assert kinds[0..] == kinds;
      for i := 0 to |kinds|
        invariant Valid()
        invariant G.ParseFields(data, old(offset), order, kinds)
                  == G.Prepend(fields, G.ParseFields(data, offset, order, kinds[i..]))
      {
        assert kinds[i..][1..] == kinds[i + 1..];
        G.PrependStep(data, offset, order, kinds[i..], fields);
        var field :- ParseField(kinds[i]);
        fields := fields + [field];
      }
      assert kinds[|kinds|..] == [] && fields + [] == fields;
      return Ok(fields);
    }

    /** `parse_event()` */
    method ParseEvent() returns (r: Result<G.Event>)
      requires Valid()
      modifies this
      ensures Valid()
      ensures Tracks(r, offset, G.ParseEvent(data, old(offset), order))
    {
      var pcr :- GetUint32();
      var dig :- GetBytes(20);
      var digests := map[Sha1 := dig];
      var descriptor :- GetLenBytes();
      var kinds :- G.Expand(descriptor);
      var subdata :- GetLenBytes();
      var sub := GetSubparser(subdata);
      var fields :- sub.ParseFields(kinds);
      return Ok(G.Event(pcr, fields, digests));
    }
  }
}
