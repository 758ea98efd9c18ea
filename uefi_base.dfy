/** The TCG PC Client event log (TCG PC Client Platform Firmware Profile,
    section 10) as pure decoding steps: little-endian readers over a buffer,
    NUL-terminated UTF-16 strings, the crypto-agile digest list, and the
    TCG_EfiSpecIdEvent header record whose integer width and digest sizes
    every later record is read with. `UefiParser.UefiParser` runs the same
    steps as methods over a cursor that also holds that decoding context. */
module UefiBase {
  import opened Common

  // ------------------------------------------------------------ event types

  /** The `UEFIEventType` codes, in declaration order. */
  const EVENT_TYPES: seq<int> := [
    0x01, 0x03, 0x04, 0x05, 0x06, 0x07, 0x08, 0x09, 0x0A, 0x0B, 0x0C, 0x0D,
    0x0E, 0x0F, 0x10, 0x11, 0x12,
    0x8000_0000, 0x8000_0001, 0x8000_0002, 0x8000_0003, 0x8000_0004,
    0x8000_0005, 0x8000_0006, 0x8000_0007, 0x8000_0008, 0x8000_0009,
    0x8000_000A, 0x8000_000B, 0x8000_000C, 0x8000_0010,
    0x8000_00E0, 0x8000_00E1, 0x8000_00E2]

  const EV_POST_CODE := 0x01
  const EV_NO_ACTION := 0x03
  const EV_SEPARATOR := 0x04
  const EV_ACTION := 0x05
  const EV_EVENT_TAG := 0x06
  const EV_S_CRTM_CONTENTS := 0x07
  const EV_S_CRTM_VERSION := 0x08
  const EV_IPL := 0x0D
  const EV_EFI_VARIABLE_DRIVER_CONFIG := 0x8000_0001
  const EV_EFI_VARIABLE_BOOT := 0x8000_0002
  const EV_EFI_BOOT_SERVICES_APPLICATION := 0x8000_0003
  const EV_EFI_GPT_EVENT := 0x8000_0006
  const EV_EFI_ACTION := 0x8000_0007
  const EV_EFI_PLATFORM_FIRMWARE_BLOB := 0x8000_0008
  const EV_EFI_HANDOFF_TABLES := 0x8000_0009
  const EV_EFI_VARIABLE_BOOT2 := 0x8000_000C
  const EV_EFI_VARIABLE_AUTHORITY := 0x8000_00E0

  /** `UEFIEventType(code)`: a code outside the enumeration is a value error. */
  function EventType(code: int): (r: Result<int>)
    ensures r.Ok? <==> code in EVENT_TYPES
    ensures r.Ok? ==> r.value == code
    ensures r.Err? ==> r.error == UnexpectedType(code, EVENT_TYPES)
  {
    if code in EVENT_TYPES then Ok(code) else Err(UnexpectedType(code, EVENT_TYPES))
  }

  // -------------------------------------------------------- decoding context

  /** What the Spec ID header teaches the parser: the `uintn` code (1 for
      32-bit, 2 for 64-bit UINTN) and the byte size of each digest algorithm. */
  datatype Context = Context(uintn: int, digestSizes: map<DigestAlgorithm, nat>)

  /** A new parser's context: 64-bit UINTN, no digest sizes known yet. */
  const INITIAL_CONTEXT := Context(2, map[])

  /** `uintn_size`: the UINTN width in bytes for a `uintn` code. */
  function UintnSize(uintn: int): (r: Result<nat>)
    ensures r.Ok? <==> uintn == 1 || uintn == 2
    ensures r.Ok? ==> r.value == 4 * uintn
    ensures r.Err? ==> r.error == UnsupportedUintn(uintn)
  {
    if uintn == 2 then Ok(8)
    else if uintn == 1 then Ok(4)
    else Err(UnsupportedUintn(uintn))
  }

  // ----------------------------------------------------------------- readers

  /** `get_bytes(size)`: a request past the end is a short buffer, checked
      before a negative request, which is a value error. */
  function GetBytes(data: bytes, off: nat, size: int): (r: Step<bytes>)
    requires off <= |data|
    ensures r.Ok? <==> 0 <= size <= |data| - off
    ensures size > |data| - off ==> r == Err(ShortBuffer(off, size, |data| - off))
    ensures size < 0 ==> r == Err(NegativeSize(size))
    ensures r.Ok? ==> r.value.1 == off + size && r.value.0 == data[off..off + size]
  {
    if size > |data| - off then Err(ShortBuffer(off, size, |data| - off))
    else if size < 0 then Err(NegativeSize(size))
    else Ok((data[off..off + size], off + size))
  }

  /** `get_bytes(left)`: the rest of the buffer, a read that cannot fail. */
  function GetRest(data: bytes, off: nat): (r: (bytes, nat))
    requires off <= |data|
    ensures GetBytes(data, off, |data| - off) == Ok(r)
    ensures r.1 == |data|
  {
    assert data[off..off + (|data| - off)] == data[off..];
    (data[off..], |data|)
  }

  /** `get_int(size)`: `size` bytes, little-endian. */
  function GetInt(data: bytes, off: nat, size: nat): (r: Step<nat>)
    requires off <= |data|
    ensures r.Ok? <==> size <= |data| - off
    ensures r.Err? ==> r.error == ShortBuffer(off, size, |data| - off)
    ensures r.Ok? ==> r.value.1 == off + size && r.value.0 == LittleEndian(data[off..off + size])
                      && r.value.0 < Pow256(size)
  {
    var (b, next) :- GetBytes(data, off, size);
    LittleEndianBound(b);
    Ok((LittleEndian(b), next))
  }

  /** `get_uint32()` */
  function GetUint32(data: bytes, off: nat): (r: Step<nat>)
    requires off <= |data|
    ensures r.Ok? <==> off + 4 <= |data|
    ensures r.Ok? ==> r.value.1 == off + 4 && r.value.0 == LittleEndian(data[off..off + 4])
  {
    GetInt(data, off, 4)
  }

  /** `get_len_bytes()`: a uint32 length, then exactly that many bytes. */
  function GetLenBytes(data: bytes, off: nat): (r: Step<bytes>)
    requires off <= |data|
    ensures r.Ok? <==> off + 4 <= |data| && LittleEndian(data[off..off + 4]) <= |data| - off - 4
    ensures r.Ok? ==> var n := LittleEndian(data[off..off + 4]);
                      r.value.1 == off + 4 + n && r.value.0 == data[off + 4..off + 4 + n]
  {
    var (n, o) :- GetUint32(data, off);
    GetBytes(data, o, n)
  }

  /** `get_guid()`: 16 bytes, kept in their on-disk order. */
  function GetGuid(data: bytes, off: nat): (r: Step<Guid>)
    requires off <= |data|
    ensures r.Ok? <==> off + 16 <= |data|
    ensures r.Ok? ==> r.value.1 == off + 16 && r.value.0 == data[off..off + 16]
  {
    GetBytes(data, off, 16)
  }

  // ---------------------------------------------------------------- strings

  /** The `k`-th 2-byte unit from `off` is present and is `00 00`. */
  predicate NulUnit(data: bytes, off: nat, k: nat)
  {
    off + 2 * k + 2 <= |data| && data[off + 2 * k] == 0 && data[off + 2 * k + 1] == 0
  }

  /** The `get_utf16` loop: 2-byte units are appended until one is `00 00`. */
  function Utf16Run(data: bytes, off: nat, acc: bytes): (r: Step<bytes>)
    requires off <= |data|
    decreases |data| - off
    ensures r.Ok? ==> off + 2 <= r.value.1 <= |data| && r.value.0 == acc + data[off..r.value.1]
    ensures r.Err? ==> r.error.ShortBuffer?
  {
    var (c, next) :- GetBytes(data, off, 2);
    if c == [0, 0] then Ok((acc + c, next))
    else
      var r := Utf16Run(data, next, acc + c);
      if r.Ok? then
        assert data[off..r.value.1] == c + data[next..r.value.1];
        r
      else r
  }

  /** `get_utf16()`: the units up to and including the first `00 00` unit. */
  function GetUtf16(data: bytes, off: nat): (r: Step<bytes>)
    requires off <= |data|
    ensures r.Ok? ==> off + 2 <= r.value.1 <= |data| && r.value.0 == data[off..r.value.1]
    ensures r.Err? ==> r.error.ShortBuffer?
  {
    Utf16Run(data, off, [])
  }

  /** Unit `j + 1` from `off` is unit `j` from the next unit. */
  lemma NulUnitShift(data: bytes, off: nat, j: nat)
    ensures NulUnit(data, off, j + 1) == NulUnit(data, off + 2, j)
  {
    assert off + 2 * (j + 1) == off + 2 + 2 * j;
  }

  /** One turn of the string loop over a unit that is not `00 00`. */
  lemma Utf16Step(data: bytes, off: nat, acc: bytes)
    requires off + 2 <= |data| && !NulUnit(data, off, 0)
    ensures Utf16Run(data, off, acc) == Utf16Run(data, off + 2, acc + data[off..off + 2])
  {
    assert GetBytes(data, off, 2) == Ok((data[off..off + 2], off + 2));
    assert data[off..off + 2] == [data[off], data[off + 1]];
  }

  /** The string loop stops at a `00 00` unit. */
  lemma Utf16Stop(data: bytes, off: nat, acc: bytes)
    requires NulUnit(data, off, 0)
    ensures Utf16Run(data, off, acc) == Ok((acc + data[off..off + 2], off + 2))
  {
    assert GetBytes(data, off, 2) == Ok((data[off..off + 2], off + 2));
    assert data[off..off + 2] == [0, 0];
  }

  /** A decoded string ends at the first aligned `00 00` unit: it is some
      `m` units of other values followed by the `00 00` unit. */
  lemma {:induction false} Utf16RunEndsAtFirstNul(data: bytes, off: nat, acc: bytes)
    requires off <= |data|
    ensures var r := Utf16Run(data, off, acc);
            r.Ok? ==> exists m: nat :: r.value.1 == off + 2 * m + 2 && NulUnit(data, off, m)
                                       && forall j | 0 <= j < m :: !NulUnit(data, off, j)
    decreases |data| - off
  {
    var r := Utf16Run(data, off, acc);
    if r.Ok? && NulUnit(data, off, 0) {
      Utf16Stop(data, off, acc);
      assert r.value.1 == off + 2 * 0 + 2;
    } else if r.Ok? {
      var next := off + 2;
      Utf16Step(data, off, acc);
      Utf16RunEndsAtFirstNul(data, next, acc + data[off..next]);
      var m: nat :| r.value.1 == next + 2 * m + 2 && NulUnit(data, next, m)
                    && forall j | 0 <= j < m :: !NulUnit(data, next, j);
      NulUnitShift(data, off, m);
      forall j | 1 <= j < m + 1
        ensures !NulUnit(data, off, j)
      {
        NulUnitShift(data, off, j - 1);
      }
      assert r.value.1 == off + 2 * (m + 1) + 2;
    }
  }

  /** A string decodes whenever some aligned `00 00` unit exists, and
      stops no later than it. */
  lemma {:induction false} Utf16RunFindsNul(data: bytes, off: nat, acc: bytes, k: nat)
    requires off <= |data| && NulUnit(data, off, k)
    ensures Utf16Run(data, off, acc).Ok? && Utf16Run(data, off, acc).value.1 <= off + 2 * k + 2
    decreases k
  {
    if NulUnit(data, off, 0) {
      Utf16Stop(data, off, acc);
    } else {
      assert k > 0;
      Utf16Step(data, off, acc);
      NulUnitShift(data, off, k - 1);
      Utf16RunFindsNul(data, off + 2, acc + data[off..off + 2], k - 1);
    }
  }

  /** Without any aligned `00 00` unit the string runs off the end. */
  lemma {:induction false} Utf16RunNeedsNul(data: bytes, off: nat, acc: bytes)
    requires off <= |data|
    requires forall j :: !NulUnit(data, off, j)
    ensures Utf16Run(data, off, acc).Err?
    ensures Utf16Run(data, off, acc).error.ShortBuffer?
    decreases |data| - off
  {
    if off + 2 <= |data| {
      assert !NulUnit(data, off, 0);
      Utf16Step(data, off, acc);
      var next := off + 2;
      forall j: nat
        ensures !NulUnit(data, next, j)
      {
        NulUnitShift(data, off, j);
      }
      Utf16RunNeedsNul(data, next, acc + data[off..next]);
    }
  }

  // -------------------------------------------------------- variable records

  /** The UEFI_VARIABLE_DATA layout that the variable and variable-authority
      events both read: the variable GUID, an 8-byte name length in UTF-16
      units, an 8-byte data length, the name bytes and the data bytes. */
  datatype VariableRecord = VariableRecord(variableName: Guid, unicodeName: bytes, variableData: bytes)

  function VariableRecordFields(data: bytes, off: nat): (r: Step<VariableRecord>)
    requires off <= |data|
    ensures r.Ok? <==> off + 32 <= |data|
                       && 2 * LittleEndian(data[off + 16..off + 24]) + LittleEndian(data[off + 24..off + 32])
                          <= |data| - off - 32
    ensures r.Err? ==> r.error.ShortBuffer?
    ensures r.Ok? ==> off + 32 <= |data|
    ensures r.Ok? ==> var unlen := LittleEndian(data[off + 16..off + 24]);
                      var vdlen := LittleEndian(data[off + 24..off + 32]);
                      r.value.1 == off + 32 + 2 * unlen + vdlen <= |data|
                      && r.value.0.variableName == data[off..off + 16]
                      && r.value.0.unicodeName == data[off + 32..off + 32 + 2 * unlen]
                      && r.value.0.variableData == data[off + 32 + 2 * unlen..r.value.1]
  {
    var (guid, o1) :- GetGuid(data, off);
    var (unlen, o2) :- GetInt(data, o1, 8);
    var (vdlen, o3) :- GetInt(data, o2, 8);
    var (name, o4) :- GetBytes(data, o3, unlen * 2);
    var (vdata, o5) :- GetBytes(data, o4, vdlen);
    Ok((VariableRecord(guid, name, vdata), o5))
  }

  // ---------------------------------------------------------------- digests

  /** The `get_digests` loop: `count` entries of a 2-byte algorithm id and a
      digest of the size the context gives that algorithm; a repeated
      algorithm overwrites the earlier digest. */
  function DigestRun(data: bytes, off: nat, count: nat, sizes: map<DigestAlgorithm, nat>,
                     acc: map<DigestAlgorithm, bytes>): (r: Step<map<DigestAlgorithm, bytes>>)
    requires off <= |data|
    decreases count
    ensures r.Ok? ==> off + 2 * count <= r.value.1 <= |data|
    ensures r.Ok? ==> acc.Keys <= r.value.0.Keys
    ensures r.Ok? ==> forall a | a in r.value.0 ::
                        (a in acc && r.value.0[a] == acc[a]) || (a in sizes && |r.value.0[a]| == sizes[a])
  {
    if count == 0 then Ok((acc, off))
    else
      var (algid, o1) :- GetInt(data, off, 2);
      var alg :- AlgorithmFromCode(algid);
      if alg !in sizes then Err(MissingAlgorithm(alg))
      else
        var (digest, o2) :- GetBytes(data, o1, sizes[alg]);
        DigestRun(data, o2, count - 1, sizes, acc[alg := digest])
  }

  /** `get_digests()`: a uint32 entry count, then the entries. Every digest
      returned has exactly the size the context declares for its algorithm. */
  function GetDigests(data: bytes, off: nat, sizes: map<DigestAlgorithm, nat>): (r: Step<map<DigestAlgorithm, bytes>>)
    requires off <= |data|
    ensures r.Ok? ==> off + 4 <= r.value.1 <= |data|
    ensures r.Ok? ==> forall a | a in r.value.0 :: a in sizes && |r.value.0[a]| == sizes[a]
  {
    var (count, o) :- GetUint32(data, off);
    DigestRun(data, o, count, sizes, map[])
  }

  /** The 2-byte little-endian algorithm id at `p`. */
  function AlgId(data: bytes, p: nat): nat
    requires p + 2 <= |data|
  {
    LittleEndian(data[p..p + 2])
  }

  /** Whether `count` digest entries lie at `off`: each a known algorithm id
      for which the context has a size, then that many digest bytes. */
  predicate DigestEntriesAt(data: bytes, off: nat, count: nat, sizes: map<DigestAlgorithm, nat>)
    decreases count
  {
    && off <= |data|
    && (count > 0 ==>
          && off + 2 <= |data| && AlgId(data, off) in ALGORITHM_CODES
          && var alg := AlgorithmFromCode(AlgId(data, off)).value;
          && alg in sizes && off + 2 + sizes[alg] <= |data|
          && DigestEntriesAt(data, off + 2 + sizes[alg], count - 1, sizes))
  }

  /** The (algorithm, digest) entries of such a run, in the order they lie. */
  function DigestList(data: bytes, off: nat, count: nat, sizes: map<DigestAlgorithm, nat>)
    : (pairs: seq<(DigestAlgorithm, bytes)>)
    requires DigestEntriesAt(data, off, count, sizes)
    decreases count
    ensures |pairs| == count
  {
    if count == 0 then []
    else
      var alg := AlgorithmFromCode(AlgId(data, off)).value;
      var end := off + 2 + sizes[alg];
      [(alg, data[off + 2..end])] + DigestList(data, end, count - 1, sizes)
  }

  /** The digest loop succeeds exactly when its `count` entries lie in the
      buffer with known, sized algorithms, and it then writes their digests
      over `acc` in order, so a repeated algorithm keeps its last digest. */
  lemma {:induction false} DigestRunContents(data: bytes, off: nat, count: nat, sizes: map<DigestAlgorithm, nat>,
                                             acc: map<DigestAlgorithm, bytes>)
    requires off <= |data|
    ensures DigestRun(data, off, count, sizes, acc).Ok? <==> DigestEntriesAt(data, off, count, sizes)
    ensures DigestRun(data, off, count, sizes, acc).Ok? ==>
              DigestRun(data, off, count, sizes, acc).value.0 == Apply(acc, DigestList(data, off, count, sizes))
    decreases count
  {
    if count > 0 && off + 2 <= |data| && AlgId(data, off) in ALGORITHM_CODES {
      var alg := AlgorithmFromCode(AlgId(data, off)).value;
      if alg in sizes && off + 2 + sizes[alg] <= |data| {
        var end := off + 2 + sizes[alg];
        var digest := data[off + 2..end];
        assert DigestRun(data, off, count, sizes, acc) == DigestRun(data, end, count - 1, sizes, acc[alg := digest]);
        DigestRunContents(data, end, count - 1, sizes, acc[alg := digest]);
        if DigestEntriesAt(data, end, count - 1, sizes) {
          ApplyFirst(acc, (alg, digest), DigestList(data, end, count - 1, sizes));
        }
      }
    }
  }

  /** `get_digests()` succeeds exactly when a uint32 count lies at `off` and
      that many entries follow it; the digests are those entries, the last
      one winning for a repeated algorithm. */
  lemma GetDigestsContents(data: bytes, off: nat, sizes: map<DigestAlgorithm, nat>)
    requires off <= |data|
    ensures GetDigests(data, off, sizes).Ok? <==>
              off + 4 <= |data| && DigestEntriesAt(data, off + 4, LittleEndian(data[off..off + 4]), sizes)
    ensures GetDigests(data, off, sizes).Ok? ==>
              GetDigests(data, off, sizes).value.0
              == Apply(map[], DigestList(data, off + 4, LittleEndian(data[off..off + 4]), sizes))
  {
    if off + 4 <= |data| {
      DigestRunContents(data, off + 4, LittleEndian(data[off..off + 4]), sizes, map[]);
    }
  }

  /** An algorithm the context does not know fails the digest list. */
  lemma MissingAlgorithmExample()
    ensures GetDigests([1, 0, 0, 0, 4, 0], 0, map[]) == Err(MissingAlgorithm(Sha1))
  {
    var data: bytes := [1, 0, 0, 0, 4, 0];
    LittleEndian4(data[..4]);
    LittleEndian2(data[4..6]);
  }

  // -------------------------------------------------------- the header event

  /** The TCG_EfiSpecIdEvent structure. */
  datatype SpecId = SpecId(
    signature: bytes,
    platformClass: nat,
    specVersionMinor: nat,
    specVersionMajor: nat,
    specErrata: nat,
    uintnSize: nat,
    digestSizes: map<DigestAlgorithm, nat>,
    vendorInfoSize: nat)

  /** `SpecIDEvent`: the header record, its only digest the sha1 field. */
  datatype SpecIdEvent = SpecIdEvent(pcr: nat, eventType: int, digests: map<DigestAlgorithm, bytes>, spec: SpecId)

  /** The algorithm-size loop of the header: a 2-byte id and a 2-byte size
      per entry; the size is read before the id is checked. */
  function DigestSizeRun(data: bytes, off: nat, count: nat, acc: map<DigestAlgorithm, nat>): (r: Step<map<DigestAlgorithm, nat>>)
    requires off <= |data|
    decreases count
    ensures r.Ok? ==> r.value.1 == off + 4 * count <= |data|
    ensures r.Ok? ==> acc.Keys <= r.value.0.Keys
  {
    if count == 0 then Ok((acc, off))
    else
      var (algid, o1) :- GetInt(data, off, 2);
      var (algsize, o2) :- GetInt(data, o1, 2);
      var alg :- AlgorithmFromCode(algid);
      DigestSizeRun(data, o2, count - 1, acc[alg := algsize])
  }

  /** The header's algorithm table: a uint32 entry count, then the entries. */
  function DigestSizeTable(data: bytes, off: nat): (r: Step<map<DigestAlgorithm, nat>>)
    requires off <= |data|
    ensures r.Ok? ==> off + 4 <= |data|
                      && r.value.1 == off + 4 + 4 * LittleEndian(data[off..off + 4]) <= |data|
  {
    var (count, o) :- GetUint32(data, off);
    DigestSizeRun(data, o, count, map[])
  }

  /** Whether `count` 4-byte (algorithm id, size) entries lie at `off`, each
      with a known algorithm id. */
  predicate SizeEntriesAt(data: bytes, off: nat, count: nat)
    decreases count
  {
    && off + 4 * count <= |data|
    && (count > 0 ==> AlgId(data, off) in ALGORITHM_CODES && SizeEntriesAt(data, off + 4, count - 1))
  }

  /** The (algorithm, digest size) entries of such a run, in order. */
  function SizeList(data: bytes, off: nat, count: nat): (pairs: seq<(DigestAlgorithm, nat)>)
    requires SizeEntriesAt(data, off, count)
    decreases count
    ensures |pairs| == count
  {
    if count == 0 then []
    else
      [(AlgorithmFromCode(AlgId(data, off)).value, LittleEndian(data[off + 2..off + 4]))]
      + SizeList(data, off + 4, count - 1)
  }

  /** The size loop succeeds exactly when its entries lie in the buffer with
      known algorithm ids, and it then writes their sizes over `acc` in
      order, the last entry for an algorithm winning. */
  lemma {:induction false} DigestSizeRunContents(data: bytes, off: nat, count: nat, acc: map<DigestAlgorithm, nat>)
    requires off <= |data|
    ensures DigestSizeRun(data, off, count, acc).Ok? <==> SizeEntriesAt(data, off, count)
    ensures DigestSizeRun(data, off, count, acc).Ok? ==>
              DigestSizeRun(data, off, count, acc).value.0 == Apply(acc, SizeList(data, off, count))
    decreases count
  {
    if count > 0 && off + 4 <= |data| {
      var size := LittleEndian(data[off + 2..off + 4]);
      if AlgId(data, off) in ALGORITHM_CODES {
        var alg := AlgorithmFromCode(AlgId(data, off)).value;
        assert DigestSizeRun(data, off, count, acc) == DigestSizeRun(data, off + 4, count - 1, acc[alg := size]);
        DigestSizeRunContents(data, off + 4, count - 1, acc[alg := size]);
        if SizeEntriesAt(data, off + 4, count - 1) {
          ApplyFirst(acc, (alg, size), SizeList(data, off + 4, count - 1));
        }
      }
    }
  }

  /** The header's table succeeds exactly when a uint32 count lies at `off`
      and that many entries with known ids follow; the table maps each
      algorithm to the size of its last entry. */
  lemma DigestSizeTableContents(data: bytes, off: nat)
    requires off <= |data|
    ensures DigestSizeTable(data, off).Ok? <==>
              off + 4 <= |data| && SizeEntriesAt(data, off + 4, LittleEndian(data[off..off + 4]))
    ensures DigestSizeTable(data, off).Ok? ==>
              DigestSizeTable(data, off).value.0 == Apply(map[], SizeList(data, off + 4, LittleEndian(data[off..off + 4])))
  {
    if off + 4 <= |data| {
      DigestSizeRunContents(data, off + 4, LittleEndian(data[off..off + 4]), map[]);
    }
  }

  /** The TCG_EfiSpecIdEvent fields, read from the start of the header's event data. */
  function SpecIdFields(data: bytes, off: nat): (r: Step<SpecId>)
    requires off <= |data|
    ensures r.Ok? ==> off + 29 <= r.value.1 <= |data|
    ensures r.Ok? ==> DigestSizeTable(data, off + 24).Ok? && r.value.1 == DigestSizeTable(data, off + 24).value.1 + 1
    ensures r.Ok? ==> r.value.0 == SpecId(data[off..off + 16], LittleEndian(data[off + 16..off + 20]),
                                          data[off + 20], data[off + 21], data[off + 22], data[off + 23],
                                          DigestSizeTable(data, off + 24).value.0, data[r.value.1 - 1])
  {
    var (signature, o1) :- GetBytes(data, off, 16);
    var (platformClass, o2) :- GetUint32(data, o1);
    var (minor, o3) :- GetInt(data, o2, 1);
    var (major, o4) :- GetInt(data, o3, 1);
    var (errata, o5) :- GetInt(data, o4, 1);
    var (uintn, o6) :- GetInt(data, o5, 1);
    assert data[o2..o3] == [data[off + 20]] && data[o3..o4] == [data[off + 21]];
    assert data[o4..o5] == [data[off + 22]] && data[o5..o6] == [data[off + 23]];
    var (sizes, o8) :- DigestSizeTable(data, o6);
    var (vendorInfoSize, o9) :- GetInt(data, o8, 1);
    assert data[o8..o9] == [data[o8]];
    Ok((SpecId(signature, platformClass, minor, major, errata, uintn, sizes, vendorInfoSize), o9))
  }

  /** What `parse_header_event` has read when it updates the parser's
      context: pcr, event type code, the 20-byte sha1 digest, and the Spec ID
      structure decoded from the length-prefixed event data. Bytes of the
      event data after `vendorInfoSize` are not examined. */
  datatype HeaderFields = HeaderFields(pcr: nat, eventType: nat, digest: bytes, spec: SpecId)

  function HeaderRead(data: bytes, off: nat): (r: Step<HeaderFields>)
    requires off <= |data|
    ensures r.Ok? ==> off + 32 <= r.value.1 <= |data|
    ensures r.Ok? ==> r.value.0.pcr == LittleEndian(data[off..off + 4])
                      && r.value.0.eventType == LittleEndian(data[off + 4..off + 8])
                      && r.value.0.digest == data[off + 8..off + 28]
    ensures r.Ok? ==> var sub := GetLenBytes(data, off + 28);
                      sub.Ok? && sub.value.1 == r.value.1
                      && SpecIdFields(sub.value.0, 0).Ok? && SpecIdFields(sub.value.0, 0).value.0 == r.value.0.spec
  {
    var (pcr, o1) :- GetUint32(data, off);
    var (eventType, o2) :- GetUint32(data, o1);
    var (digest, o3) :- GetBytes(data, o2, 20);
    var (subdata, o4) :- GetLenBytes(data, o3);
    var (spec, _) :- SpecIdFields(subdata, 0);
    Ok((HeaderFields(pcr, eventType, digest, spec), o4))
  }

  /** The context a successfully read header installs. */
  function HeaderContext(h: HeaderFields): Context
  {
    Context(h.spec.uintnSize, h.spec.digestSizes)
  }

  /** `parse_header_event()`: the header's event type must be a known
      `UEFIEventType`; that check comes after the context has been replaced. */
  function ParseHeaderEvent(data: bytes, off: nat): (r: Step<SpecIdEvent>)
    requires off <= |data|
    ensures r.Ok? <==> HeaderRead(data, off).Ok? && HeaderRead(data, off).value.0.eventType in EVENT_TYPES
    ensures r.Ok? ==> var h := HeaderRead(data, off).value;
                      r.value.1 == h.1 && r.value.0.digests == map[Sha1 := h.0.digest]
                      && r.value.0.spec == h.0.spec && r.value.0.pcr == h.0.pcr
                      && r.value.0.eventType == h.0.eventType
  {
    var (h, next) :- HeaderRead(data, off);
    var eventType :- EventType(h.eventType);
    Ok((SpecIdEvent(h.pcr, eventType, map[Sha1 := h.digest], h.spec), next))
  }

  /** A header whose structure reads but whose event type is unknown fails,
      yet has already replaced the context: the failure is not atomic. */
  lemma HeaderUnknownTypeStillSetsContext(data: bytes, off: nat)
    requires off <= |data|
    requires HeaderRead(data, off).Ok? && HeaderRead(data, off).value.0.eventType !in EVENT_TYPES
    ensures ParseHeaderEvent(data, off) == Err(UnexpectedType(HeaderRead(data, off).value.0.eventType, EVENT_TYPES))
  {
  }
}
