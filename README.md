# eventlogs decoders in Dafny

This project models the decoding core of `eventlogs`, a library that reads three
boot-measurement log formats:

- the TCG Canonical Event Log (CEL) in its TLV encoding: a 1-byte type, a 4-byte
  big-endian length, then the value;
- Linux IMA template records, which are little-endian and length-prefixed;
- the UEFI/TCG PC Client event log. This covers the Spec ID header event that
  fixes the digest sizes, the event records, and the event payloads with their
  UEFI sub-structures: device paths, boot variables, the GPT, and signature lists.

Every source file is modelled in two layers:

- **Grammar modules** (`CelGrammar`, `ImaGrammar`, `UefiBase`, `DevicePath`,
  `SecureBoot`, `UefiEvents`, plus `Common`) describe each decoding step as a
  function. A step takes the buffer and a start offset and returns
  `Ok((value, next offset))` or `Err(error)`. The properties are proved about
  these functions.
- **Parser modules** (`CelParser`, `ImaParser`, `UefiParser`, `DevicePathParser`,
  `SecureBootParser`, `UefiEventsParser`) follow the source's cursor objects.
  - `TlvParser`, `ImaParser` and `UefiParser` are classes whose `offset` field
    the methods advance. `UefiParser` also carries the session context: the
    `uintn` code and the digest-size table.
  - Loops are `while` loops with invariants.
  - Each method ensures `Tracks(r, offset, Step(data, old(offset)))`. This means
    it returns the step's value and stops at the step's next offset, or it
    returns the step's error.
  - A sub-parser is a fresh object over exactly the carved-out bytes, so
    offsets inside it are relative to that sub-buffer.

Errors are the `Common.Error` datatype. Its constructors carry the quantities
that are in hand at the raise site:

- `ShortBuffer(offset, requested, left)`;
- `NegativeSize(size)`;
- `ValueTooLarge(requested, maximum)`;
- `UnexpectedType(got, expected)`;
- `UnknownDescriptor(name, names)`;
- `NotConsumed(left)`;
- `DigestsLengthMismatch(remaining)`, for CEL digest entries that overrun their container;
- `MissingAlgorithm(algorithm)`;
- `UnpackMismatch(wanted, found)`;
- `NotImplemented`;
- `UnsupportedUintn(code)`, for a UEFI integer-width code other than 1 or 2.

GUIDs are kept as their 16 on-disk (`bytes_le`) bytes. Variable and partition
names are kept as raw UTF-16LE bytes. Handler registries are constant tables or
membership predicates, and each has a lookup function.

Where the code and the format's prose description disagree, the model follows
the code, with one exception: the signature-list length (see "## Findings" and
"## Left out"). Elsewhere:

- Only some scopes reject trailing bytes:
  - the CEL version, PC Client and IMA-template payloads;
  - UEFI variable-data and variable-authority events.

  The CEL management scope, IMA records, IMA payloads, device-path node bodies
  and most UEFI payloads accept them.
- `get_subparser` copies the `uintn` code but not the digest-size table.
- An unknown IMA descriptor is a `KeyError` in the code. It is modelled as
  `UnknownDescriptor(name, names)`.

## Model

| member | source | states |
|---|---|---|
| Common.Code | src/eventlogs/common.py:12-18 | every algorithm's TPM_ALG_ID code is one of 4, 11, 12, 13, 18 |
| Common.AlgorithmFromCode | src/eventlogs/common.py:12-18 | conversion from a code succeeds exactly for the five registered codes, yields the algorithm with that code, and otherwise reports the code against the list of codes |
| Common.CodeRoundTrip | src/eventlogs/common.py:12-18 | converting an algorithm's code back yields the same algorithm, so codes are distinct |
| Common.Name | src/eventlogs/common.py:12-18 | an algorithm renders as its member name: `sha1`, `sha256`, `sha384`, `sha512` or `sm3_256`, each name for exactly its own algorithm |
| Common.NameInjective | src/eventlogs/common.py:12-18 | distinct algorithms render as distinct names, so an error text names one algorithm |
| Common.BigEndianBound | src/eventlogs/cel.py:286 | an n-byte big-endian integer is below 256^n |
| Common.LittleEndianBound | src/eventlogs/uefi/base.py:189 | an n-byte little-endian integer is below 256^n |
| Common.FromBytesBound | src/eventlogs/ima.py:221 | an n-byte integer in either byte order is below 256^n |
| Common.LittleEndianIsReversedBigEndian | src/eventlogs/ima.py:221 | reading little-endian equals reading the reversed bytes big-endian |
| Common.BigEndian4 | src/eventlogs/cel.py:304 | a 4-byte big-endian field is b0·2^24 + b1·2^16 + b2·2^8 + b3 |
| Common.LittleEndian4 | src/eventlogs/uefi/base.py:191-192 | a uint32 field is b0 + 2^8·b1 + 2^16·b2 + 2^24·b3 |
| Common.LittleEndian2 | src/eventlogs/uefi/base.py:223 | a uint16 field is b0 + 2^8·b1 |
| Common.Ascii | src/eventlogs/ima.py:66-81 | a descriptor literal is one byte per character |
| Common.Utf16Le | src/eventlogs/uefi/base.py:142-143 | a registered name is encoded as 2 bytes per character, low byte first |
| Common.ApplyIsLastWins | src/eventlogs/cel.py:336-340 | doing the assignments `d[k] = v` in order gives the base keys plus the assigned ones; each key assigned holds the value of its last assignment, and every other key keeps its base value |
| Common.ApplyFirst | src/eventlogs/cel.py:339 | doing a first assignment and then the rest is doing the rest on the updated base |
| Common.AppliedFirst | src/eventlogs/cel.py:339 | a map that is the rest of the assignments done on the updated base is all of them done on the base |
| Common.Fill | src/eventlogs/uefi/device_path.py:282-296 | the `while parser.left:` loop: on success it ends at the end of the buffer, keeps the entries already read, and has at most one entry per `min` bytes |
| Common.FillEntry | src/eventlogs/uefi/device_path.py:284-295 | entry i of a successful loop is exactly what one step reads at the offset where entry i − 1 ended (the first at the start offset) |
| Common.FillEnd | src/eventlogs/uefi/device_path.py:284 | a successful loop ends at the end of the buffer, where an entry after the last would start |
| Common.FillOfTiling | src/eventlogs/uefi/device_path.py:282-296 | the converse of FillTiles: entries that tile the rest of the buffer are exactly what the while-bytes-remain loop reads |
| Common.FillTiles | src/eventlogs/uefi/device_path.py:282-296 | the entries of a successful loop lie back to back from the start offset, each read by one step, and the last ends at the end of the buffer |
| Common.TimesIsProduct | src/eventlogs/uefi/secureboot.py:117 | counting down by a fixed size k times covers k × size bytes |
| Common.Stride | src/eventlogs/uefi/secureboot.py:111-117 | the `while list_left:` loop over fixed-size entries: on success it keeps the entries already read and ends exactly `list_left` bytes later |
| Common.StrideCount | src/eventlogs/uefi/secureboot.py:111-117 | the length a successful loop covers is its number of entries times the entry size |
| Common.StrideEntry | src/eventlogs/uefi/secureboot.py:112-116 | entry i of a successful loop is what one step reads at offset start + i × size, ending size bytes later |
| Common.StrideNegative | src/eventlogs/uefi/secureboot.py:111 | a negative remaining length never reaches zero, so the loop fails |
| CelGrammar.ContentTypeOf | src/eventlogs/cel.py:27-37 | each content type carries its own code: cel 4, pcclient_std 5, ima_template 7 |
| CelGrammar.StateTransFromCode | src/eventlogs/cel.py:55-65 | a state transition converts exactly from 0, 1, 2 (suspend, hibernate, kexec), else an UnexpectedType error listing those codes |
| CelGrammar.Remove | src/eventlogs/cel.py:353 | removing a seen type drops exactly one occurrence of it from the expect list |
| CelGrammar.RemoveOnlyTypes | src/eventlogs/cel.py:353 | removing a seen type keeps an expect list within its two field types |
| CelGrammar.RemoveKeeps | src/eventlogs/cel.py:353 | removing one type leaves whether any other type is still expected unchanged |
| CelGrammar.GetBytes | src/eventlogs/cel.py:257-270 | succeeds iff size ≤ left, returns exactly the next size bytes and advances by size; otherwise ShortBuffer(offset, size, left) |
| CelGrammar.GetInt | src/eventlogs/cel.py:272-286 | size > max fails with ValueTooLarge before anything is read; a success is the big-endian value of the next size bytes, below 256^size |
| CelGrammar.GetTl | src/eventlogs/cel.py:288-305 | consumes exactly 5 bytes; the type is byte 0 and must be in a non-empty expect set; the length is bytes 1..4 big-endian; short buffer and wrong type are reported with their data |
| CelGrammar.TlvLengthIsBigEndian | src/eventlogs/cel.py:304 | the TLV length is the big-endian value of header bytes 1..4 |
| CelGrammar.GetTlAt | src/eventlogs/cel.py:298-305 | a readable header whose type is allowed (or with no expect set) yields (byte 0, big-endian bytes 1..4) and offset + 5 |
| CelGrammar.GetTlvInt | src/eventlogs/cel.py:307-323 | a TLV whose type is in the expect set, whose length is at most max, and whose value is the big-endian integer of exactly those bytes |
| CelGrammar.DigestEntries | src/eventlogs/cel.py:333-342 | the digest loop succeeds only with a non-negative count and ends exactly `left` bytes later |
| CelGrammar.GetDigests | src/eventlogs/cel.py:325-343 | a digests container (type 3) whose entries tile it exactly; the map is the entries' (algorithm, digest) assignments done in order on an empty map, so the last entry for an algorithm wins; the step ends at the container's end |
| CelGrammar.DigestEntriesTile | src/eventlogs/cel.py:335-342 | the digest loop succeeds iff its entries (each 5 + length bytes, each with an algorithm code) tile the container exactly |
| CelGrammar.DigestEntriesTiles | src/eventlogs/cel.py:335-342 | a successful digest loop implies the entries tile the container |
| CelGrammar.DigestEntriesMap | src/eventlogs/cel.py:335-342 | entries that tile the container make the digest loop succeed at the container's end, with the map given by doing their assignments in order on the map so far |
| CelGrammar.DigestStep | src/eventlogs/cel.py:336-340 | one turn of the digest loop: the entry's bytes are stored under its algorithm and the loop goes on after the entry with that much less left |
| CelGrammar.DigestEntryReads | src/eventlogs/cel.py:336-338 | an entry the successful loop reads lies inside the buffer and has an algorithm code |
| CelGrammar.RepeatedDigestExample | src/eventlogs/cel.py:339 | a later entry for the same algorithm replaces the earlier one |
| CelGrammar.VersionFields | src/eventlogs/cel.py:350-357 | the version loop stays inside the buffer |
| CelGrammar.VersionFieldsValues | src/eventlogs/cel.py:347-357 | a successful version loop read exactly one TLV per pending type, back to back in either order; major and minor are the big-endian values of their TLVs, and a type no longer pending keeps its earlier value |
| CelGrammar.ParseMgmtVersionEvent | src/eventlogs/cel.py:345-368 | a version event consumes its whole buffer and keeps the header |
| CelGrammar.ParseMgmtVersionEventValue | src/eventlogs/cel.py:345-368 | a decoded version record is a major and a minor TLV filling the payload, and holds their big-endian values |
| CelGrammar.VersionAfterMinorExample | src/eventlogs/cel.py:350-353 | after minor only major is accepted: type 255 is reported against [major] |
| CelGrammar.VersionExtraByteExample | src/eventlogs/cel.py:358-359 | a byte after both version fields gives NotConsumed(1) |
| CelGrammar.ParseMgmtEvent | src/eventlogs/cel.py:370-408 | the management type is one of 1, 2, 0x80, 0x81 and selects the event kind; firmware_end consumes only its 5-byte header, every other kind its header plus value |
| CelGrammar.ParseMgmtVersionValue | src/eventlogs/cel.py:374-377 | a cel_version TLV inside the buffer is an event exactly when its value parses as a version record; the event is that record and ends after the TLV |
| CelGrammar.ParseMgmtTimestampValue | src/eventlogs/cel.py:386-395 | a cel_timestamp TLV inside the buffer is an event exactly when its value has at most 8 bytes; the event holds that value read big-endian and ends after the TLV |
| CelGrammar.ParseMgmtStateTransValue | src/eventlogs/cel.py:396-405 | a state_trans TLV inside the buffer is an event exactly when its value has at most 1 byte and is a known transition code; the event holds that transition and ends after the TLV |
| CelGrammar.PcClientStdFields | src/eventlogs/cel.py:417-424 | the PC Client loop stays inside the buffer |
| CelGrammar.PcClientStdFieldsValues | src/eventlogs/cel.py:414-424 | a successful PC Client loop read exactly one TLV per pending type, in either order; event_type is the big-endian value of its TLV and event_data the bytes of its TLV; a type no longer pending keeps its earlier value |
| CelGrammar.PcClientStdFirst | src/eventlogs/cel.py:418-424 | the first field a successful PC Client loop reads is an expected TLV inside the buffer, and an event_type value has at most 4 bytes |
| CelGrammar.PcClientStdStep | src/eventlogs/cel.py:417-424 | one turn of the PC Client loop: event_type takes the big-endian value or event_data the bytes of the TLV read, and the loop goes on after it with that type removed |
| CelGrammar.ParsePcClientStdEvent | src/eventlogs/cel.py:410-434 | a PC Client event consumes its whole buffer and keeps the header |
| CelGrammar.ParsePcClientStdEventValue | src/eventlogs/cel.py:410-434 | a decoded PC Client event is an event_type and an event_data TLV filling the payload; it holds the big-endian value of the first and the bytes of the second |
| CelGrammar.ImaTemplateFields | src/eventlogs/cel.py:443-450 | the IMA template loop stays inside the buffer |
| CelGrammar.ImaTemplateFieldsCover | src/eventlogs/cel.py:440-450 | the IMA template loop succeeds iff one template_name and one template_data TLV lie back to back in either order, and then it ends where they end |
| CelGrammar.ImaTemplateFieldsCovers | src/eventlogs/cel.py:440-450 | a successful IMA template loop covers both field types exactly once |
| CelGrammar.ImaTemplateCoverSucceeds | src/eventlogs/cel.py:440-450 | two such fields lying back to back make the loop succeed and end where they end |
| CelGrammar.ImaTemplateFieldsValues | src/eventlogs/cel.py:440-450 | a successful IMA template loop read exactly one TLV per pending type, in either order; template_name and template_data are the bytes of their TLVs; a type no longer pending keeps its earlier value |
| CelGrammar.FieldValueStep | src/eventlogs/cel.py:443-450 | one TLV more in front of a field loop: the value kept for a type is that TLV's value if it is the last of its type, the rest's value if the type comes again, and the earlier value if the type is not expected |
| CelGrammar.ImaTemplateFirst | src/eventlogs/cel.py:444-450 | the first field a successful IMA template loop reads is an expected TLV inside the buffer |
| CelGrammar.ImaTemplateStep | src/eventlogs/cel.py:443-450 | one turn of the IMA template loop: template_name or template_data takes the bytes of the TLV read, and the loop goes on after it with that type removed |
| CelGrammar.ParseImaTemplateEvent | src/eventlogs/cel.py:436-460 | an IMA template event consumes its whole buffer and keeps the header |
| CelGrammar.ParseImaTemplateEventValue | src/eventlogs/cel.py:436-460 | a decoded IMA template event is a template_name and a template_data TLV filling the payload, and holds the bytes of each |
| CelGrammar.ParseContent | src/eventlogs/cel.py:486-496 | the content type selects the grammar: cel gives a management event, pcclient_std a PC Client event, ima_template an IMA template event, each carrying the header |
| CelGrammar.ParseHeader | src/eventlogs/cel.py:473-485 | a record starts with a recnum TLV (type 0) of at most 8 bytes whose big-endian value is the record number; the content value starts after that TLV and inside the buffer |
| CelGrammar.ParseHeaderValue | src/eventlogs/cel.py:473-485 | after recnum come a pcr or nv_index TLV of at most 4 bytes whose big-endian value is the handle, then the digests container whose map is the header's digests, then a content TLV header whose type gives the content type and whose length is returned; the content starts after that header |
| CelGrammar.ParseEvent | src/eventlogs/cel.py:462-496 | a decoded record ends after its start and inside the buffer |
| CelGrammar.ParseEventContent | src/eventlogs/cel.py:486-496 | a record decodes exactly when its header decodes, its content bytes are inside the buffer and the grammar the content type selects decodes them; the event is that decoded content and the record ends after the content |
| CelGrammar.ParseEventIsFourTlvs | src/eventlogs/cel.py:473-486 | a decoded record is exactly four TLVs back to back (recnum, handle, digests, content) and nothing more |
| CelGrammar.FieldsCoverBounded | src/eventlogs/cel.py:350-357 | fields that cover a span end at or after where they start |
| CelGrammar.TlvValue | src/eventlogs/cel.py:304 | the value of a TLV has exactly its announced length |
| CelGrammar.CoverPos | src/eventlogs/cel.py:350-357 | the TLV a field loop last read for a type lies inside the covered span and has that type |
| CelGrammar.CoverStep | src/eventlogs/cel.py:350-357 | one TLV more in front of a cover: the value kept for a type is that TLV's value when it is the last of its type, else the value the rest keeps |
| CelGrammar.ShortBufferExample | src/eventlogs/cel.py:266-267 | a 2-byte read from a 1-byte buffer reports offset 0, requested 2, left 1 |
| CelGrammar.ValueTooLargeExample | src/eventlogs/cel.py:283-284 | a 5-byte integer with a 2-byte maximum is refused |
| CelParser.TlvParser.constructor | src/eventlogs/cel.py:243-245 | a parser starts at offset 0 of its data |
| CelParser.TlvParser.GetBytes | src/eventlogs/cel.py:257-270 | agrees with CelGrammar.GetBytes and leaves the offset unchanged on failure |
| CelParser.TlvParser.GetInt | src/eventlogs/cel.py:272-286 | agrees with CelGrammar.GetInt and leaves the offset unchanged on failure |
| CelParser.TlvParser.GetTl | src/eventlogs/cel.py:288-305 | agrees with CelGrammar.GetTl |
| CelParser.TlvParser.GetTlvInt | src/eventlogs/cel.py:307-323 | agrees with CelGrammar.GetTlvInt |
| CelParser.TlvParser.GetDigests | src/eventlogs/cel.py:325-343 | the countdown loop agrees with CelGrammar.GetDigests |
| CelParser.TlvParser.ParseMgmtVersionEvent | src/eventlogs/cel.py:345-368 | the expect-list loop agrees with CelGrammar.ParseMgmtVersionEvent |
| CelParser.TlvParser.VersionFields | src/eventlogs/cel.py:350-357 | the expect-list loop agrees with CelGrammar.VersionFields |
| CelParser.TlvParser.ParseMgmtEvent | src/eventlogs/cel.py:370-408 | agrees with CelGrammar.ParseMgmtEvent; cel_version decodes in a fresh sub-parser |
| CelParser.TlvParser.ParsePcClientStdEvent | src/eventlogs/cel.py:410-434 | the expect-list loop agrees with CelGrammar.ParsePcClientStdEvent |
| CelParser.TlvParser.ParseImaTemplateEvent | src/eventlogs/cel.py:436-460 | the expect-list loop agrees with CelGrammar.ParseImaTemplateEvent |
| CelParser.TlvParser.ParseHeader | src/eventlogs/cel.py:473-485 | agrees with CelGrammar.ParseHeader |
| CelParser.TlvParser.ParseEvent | src/eventlogs/cel.py:462-496 | agrees with CelGrammar.ParseEvent; the content is decoded by a sub-parser over exactly its bytes |
| ImaGrammar.Expand | src/eventlogs/ima.py:64-82 | exactly the eight descriptor names expand; the first field is a digest and the second a name; xattrvalues appears iff the name is evm-sig; any other name fails |
| ImaGrammar.DescriptorNamesDistinct | src/eventlogs/ima.py:64-82 | the eight descriptor names are pairwise distinct, so the expansion table is unambiguous |
| ImaGrammar.SplitN | src/eventlogs/ima.py:239 | `split(sep, n)` yields between 1 and n + 1 parts |
| ImaGrammar.SplitAll | src/eventlogs/ima.py:268 | `split(sep)` yields at least one part |
| ImaGrammar.SplitNJoin | src/eventlogs/ima.py:239 | joining the parts of `split(sep, n)` with sep gives back the value |
| ImaGrammar.SplitNSepFree | src/eventlogs/ima.py:239 | every part but the last is free of the separator, so the split is at the first occurrences |
| ImaGrammar.SplitNLastSepFree | src/eventlogs/ima.py:242 | when fewer than n + 1 parts come out, the last is separator-free too |
| ImaGrammar.SplitNCount | src/eventlogs/ima.py:242 | `split(sep, n)` yields min(count of sep, n) + 1 parts |
| ImaGrammar.SplitAllIsSplitN | src/eventlogs/ima.py:268 | an unlimited split is a limited one with a large enough limit |
| ImaGrammar.SplitAllParts | src/eventlogs/ima.py:268 | `split(sep)` yields count + 1 separator-free parts that join back to the value |
| ImaGrammar.SplitNUnsplit | src/eventlogs/ima.py:239 | a split with limit 0 leaves the value whole |
| ImaGrammar.CountBound | src/eventlogs/ima.py:242 | a byte occurs at most length-many times |
| ImaGrammar.XattrNamesExample | src/eventlogs/ima.py:267-269 | `7|8` splits into [7] and [8]; an empty value gives one empty name |
| ImaGrammar.DecodeDigestNg | src/eventlogs/ima.py:238-240 | d-ng succeeds iff a colon is present; it splits at the first colon (the digest may hold more); otherwise the unpack mismatch of 2 names against 1 part |
| ImaGrammar.DigestNgFirstColonExample | src/eventlogs/ima.py:239 | `1:2:3` gives algorithm `1` and digest `2:3` |
| ImaGrammar.DecodeDigestNgV2 | src/eventlogs/ima.py:241-245 | d-ngv2 succeeds iff at least two colons are present; it splits at the first two; otherwise the unpack mismatch of 3 names against the parts found |
| ImaGrammar.XattrLengthRun | src/eventlogs/ima.py:273-275 | a successful length loop consumes the whole value |
| ImaGrammar.XattrLengthRunStep | src/eventlogs/ima.py:273-275 | one turn of the length loop over a whole word appends that word |
| ImaGrammar.XattrLengthRunOutcome | src/eventlogs/ima.py:271-276 | the length loop succeeds iff the value length is a multiple of 4, adds one value per remaining word, and otherwise fails with ShortBuffer on the partial word |
| ImaGrammar.XattrLengthRunWord | src/eventlogs/ima.py:273-275 | the value the loop adds for word j is that word in the record's byte order |
| ImaGrammar.WholeWordsIsDivisible | src/eventlogs/ima.py:273 | counting a length off four at a time reaches zero exactly when it is a multiple of 4 |
| ImaGrammar.XattrLengthRunSpec | src/eventlogs/ima.py:271-276 | the length loop succeeds iff the remaining value length is a multiple of 4, yielding one uint32 per 4-byte word in order, else ShortBuffer on the last partial word |
| ImaGrammar.DecodeXattrLengths | src/eventlogs/ima.py:270-276 | xattrlengths succeeds iff the length is a multiple of 4, giving length/4 uint32 words in the record's byte order |
| ImaGrammar.PlainField | src/eventlogs/ima.py:234-266 | a field that is kept as bytes or read as an integer carries its own tag |
| ImaGrammar.PlainFieldValue | src/eventlogs/ima.py:234-269 | d, n, d-modsig, n-ng, sig, modsig, buf and evmsig keep the bytes as read; iuid, igid and imode are the integer of those bytes in the record's byte order; xattrnames is the value split at every pipe, parts free of pipes that join back to the value |
| ImaGrammar.DecodeField | src/eventlogs/ima.py:231-282 | a field value decodes iff it is decodable for its kind, and the result is tagged with that kind |
| ImaGrammar.DecodeFieldByKind | src/eventlogs/ima.py:231-282 | a plain kind decodes to its plain value; d-ng, d-ngv2 and xattrlengths decode exactly as their own decoders do, errors included |
| ImaGrammar.XattrValuesNotImplemented | src/eventlogs/ima.py:277-279 | xattrvalues always fails as not implemented |
| ImaGrammar.GetBytes | src/eventlogs/ima.py:212-217 | succeeds iff size ≤ left, returns exactly those bytes and advances by size; otherwise ShortBuffer |
| ImaGrammar.GetUint32 | src/eventlogs/ima.py:219-221 | succeeds iff 4 bytes remain; 4 bytes in the parser's byte order; otherwise ShortBuffer(offset, 4, left) |
| ImaGrammar.GetLenBytes | src/eventlogs/ima.py:223-226 | succeeds iff the 4-byte length and that many bytes after it remain, and then returns exactly those bytes; a missing length fails with ShortBuffer(offset, 4, left), a missing body with ShortBuffer(offset + 4, length, left − 4) |
| ImaGrammar.ParseField | src/eventlogs/ima.py:231-282 | a field succeeds iff its length-prefixed value reads and is decodable for its kind; the result carries the kind and ends after the 4-byte length |
| ImaGrammar.ParseFieldValue | src/eventlogs/ima.py:231-282 | a field is the decoding of exactly its length-prefixed value and ends right after it; a failed length read or a failed decoding is the field's error |
| ImaGrammar.ParseFields | src/eventlogs/ima.py:284-291 | one value per kind, ending inside the buffer |
| ImaGrammar.ParseFieldsTags | src/eventlogs/ima.py:284-291 | the i-th value carries the i-th kind, and a successful run never meets xattrvalues |
| ImaGrammar.ParseFieldsEntry | src/eventlogs/ima.py:287-290 | the i-th value is the field read where the (i − 1)-th ended, the first at the start |
| ImaGrammar.ParseFieldsEnd | src/eventlogs/ima.py:284-291 | a successful run ends where a field after the last would start |
| ImaGrammar.ParseFieldsCons | src/eventlogs/ima.py:287-290 | the loop reads one field and then the rest, and fails with the first field error |
| ImaGrammar.PrependStep | src/eventlogs/ima.py:287-290 | one turn of the loop: a failing field fails the run with its error, else its value joins the values already read |
| ImaGrammar.ParseEvent | src/eventlogs/ima.py:293-308 | pcr is the first uint32 in the record's byte order, the digests map only sha1 to the next 20 bytes, and the record ends inside the buffer |
| ImaGrammar.ParseEventOutcome | src/eventlogs/ima.py:293-308 | a record decodes iff the 24 fixed bytes are there, the template name reads and expands, the template data reads, and its fields parse; otherwise the error is that of the first step that fails, in the order the code reads them |
| ImaGrammar.ParseEventValue | src/eventlogs/ima.py:293-308 | the template name reads and expands, the template data reads, the record ends where the data ends, the fields are exactly those parsed from the data by the expanded kinds, one per kind, and the name is never evm-sig |
| ImaParser.ImaParser.constructor | src/eventlogs/ima.py:197-202 | a parser starts at offset 0 with the given byte order |
| ImaParser.ImaParser.GetBytes | src/eventlogs/ima.py:212-217 | agrees with ImaGrammar.GetBytes and leaves the offset unchanged on failure |
| ImaParser.ImaParser.GetUint32 | src/eventlogs/ima.py:219-221 | agrees with ImaGrammar.GetUint32 |
| ImaParser.ImaParser.GetLenBytes | src/eventlogs/ima.py:223-226 | agrees with ImaGrammar.GetLenBytes |
| ImaParser.ImaParser.GetSubparser | src/eventlogs/ima.py:228-229 | a fresh parser over exactly the given bytes, at offset 0, with the same byte order |
| ImaParser.ImaParser.ParseField | src/eventlogs/ima.py:231-282 | agrees with ImaGrammar.ParseField; xattrlengths loops over a sub-parser |
| ImaParser.ImaParser.ParseFields | src/eventlogs/ima.py:284-291 | the for-loop agrees with ImaGrammar.ParseFields |
| ImaParser.ImaParser.ParseEvent | src/eventlogs/ima.py:293-308 | agrees with ImaGrammar.ParseEvent; the fields decode in a sub-parser over the payload |
| UefiBase.EventType | src/eventlogs/uefi/base.py:14-48 | a code converts iff it is one of the listed event types, else UnexpectedType |
| UefiBase.UintnSize | src/eventlogs/uefi/base.py:170-176 | code 1 gives 4 bytes, code 2 gives 8, anything else fails |
| UefiBase.GetBytes | src/eventlogs/uefi/base.py:178-185 | succeeds iff 0 ≤ size ≤ left; a size past the end is ShortBuffer (checked first), a negative size NegativeSize |
| UefiBase.GetRest | src/eventlogs/uefi/base.py:70 | reading `left` bytes always succeeds and ends the buffer |
| UefiBase.GetInt | src/eventlogs/uefi/base.py:187-189 | the little-endian value of exactly the next size bytes, below 256^size |
| UefiBase.GetUint32 | src/eventlogs/uefi/base.py:191-192 | succeeds iff 4 bytes remain, giving their little-endian value |
| UefiBase.GetLenBytes | src/eventlogs/uefi/base.py:194-197 | succeeds iff a uint32 length and that many bytes remain; yields exactly those bytes |
| UefiBase.GetGuid | src/eventlogs/uefi/base.py:206-208 | succeeds iff 16 bytes remain and yields them |
| UefiBase.Utf16Run | src/eventlogs/uefi/base.py:212-216 | the unit loop appends whole 2-byte units and reads at least one; it can only fail with a short buffer |
| UefiBase.GetUtf16 | src/eventlogs/uefi/base.py:210-217 | a UTF-16 string is the bytes read, at least one unit long; it can only fail with a short buffer |
| UefiBase.Utf16RunEndsAtFirstNul | src/eventlogs/uefi/base.py:212-216 | a success ends just after the first 00 00 unit |
| UefiBase.Utf16RunFindsNul | src/eventlogs/uefi/base.py:212-216 | a 00 00 unit ahead makes the read succeed no later than that unit |
| UefiBase.Utf16RunNeedsNul | src/eventlogs/uefi/base.py:212-216 | with no 00 00 unit ahead the read fails with ShortBuffer |
| UefiBase.Utf16Step | src/eventlogs/uefi/base.py:212-216 | one turn of the string loop over a unit that is not 00 00 appends that unit |
| UefiBase.Utf16Stop | src/eventlogs/uefi/base.py:212-216 | the string loop stops after a 00 00 unit, which it keeps |
| UefiBase.VariableRecordFields | src/eventlogs/uefi/events.py:130-134 | succeeds iff the 32 fixed bytes and then 2 × name-length + data-length bytes remain, failing otherwise with a short buffer; a GUID, 8-byte name and data lengths, then name (2 bytes per unit) and data, laid out exactly |
| UefiBase.DigestRun | src/eventlogs/uefi/base.py:222-228 | each digest read has the size the session table gives its algorithm; earlier entries are kept unless overwritten; at least 2 bytes per entry |
| UefiBase.DigestRunContents | src/eventlogs/uefi/base.py:222-228 | the entry loop succeeds iff count entries, each a known algorithm id with a declared size and that many bytes, lie back to back; the map is their (algorithm, digest) assignments done in order, so the last entry for an algorithm wins |
| UefiBase.GetDigests | src/eventlogs/uefi/base.py:219-229 | every digest has the session table's size for its algorithm |
| UefiBase.GetDigestsContents | src/eventlogs/uefi/base.py:219-229 | get_digests succeeds iff a uint32 count is followed by that many well-formed entries; the map is their assignments done in order on an empty map |
| UefiBase.MissingAlgorithmExample | src/eventlogs/uefi/base.py:225 | an algorithm missing from the session table fails |
| UefiBase.DigestSizeRun | src/eventlogs/uefi/base.py:245-250 | the size loop reads 4 bytes per entry and keeps the algorithms already read |
| UefiBase.DigestSizeRunContents | src/eventlogs/uefi/base.py:245-250 | the size loop succeeds iff count (known algorithm id, uint16 size) entries lie back to back; the table is their assignments done in order, so the last entry for an algorithm wins |
| UefiBase.DigestSizeTable | src/eventlogs/uefi/base.py:243-250 | the size table is a uint32 count followed by exactly that many 4-byte entries |
| UefiBase.DigestSizeTableContents | src/eventlogs/uefi/base.py:243-250 | the size table succeeds iff a uint32 count is followed by that many well-formed entries, and maps each algorithm to the size of its last entry |
| UefiBase.SpecIdFields | src/eventlogs/uefi/base.py:237-251 | the Spec ID is the 16-byte signature, the uint32 platform class, the spec version minor, version major and errata bytes, the uintn code at byte 23, the digest-size table read at byte 24, and the vendor_info_size byte after it; bytes after vendor_info_size are not read |
| UefiBase.HeaderRead | src/eventlogs/uefi/base.py:232-251 | pcr, event type and the 20-byte digest at fixed offsets, then the Spec ID from exactly the length-prefixed event data |
| UefiBase.ParseHeaderEvent | src/eventlogs/uefi/base.py:231-267 | succeeds iff the header reads and its event type is known; digests are {sha1: the 20 bytes} |
| UefiBase.HeaderUnknownTypeStillSetsContext | src/eventlogs/uefi/base.py:252-257 | a readable header with an unknown event type fails after the context was taken |
| UefiParser.UefiParser.constructor | src/eventlogs/uefi/base.py:156-160 | a parser starts at offset 0 with uintn code 2 and an empty digest-size table |
| UefiParser.UefiParser.UintnSize | src/eventlogs/uefi/base.py:170-176 | agrees with UefiBase.UintnSize on the stored code |
| UefiParser.UefiParser.GetBytes | src/eventlogs/uefi/base.py:178-185 | agrees with UefiBase.GetBytes and leaves the offset unchanged on failure |
| UefiParser.UefiParser.GetInt | src/eventlogs/uefi/base.py:187-189 | agrees with UefiBase.GetInt |
| UefiParser.UefiParser.GetUint32 | src/eventlogs/uefi/base.py:191-192 | agrees with UefiBase.GetUint32 |
| UefiParser.UefiParser.GetLenBytes | src/eventlogs/uefi/base.py:194-197 | agrees with UefiBase.GetLenBytes |
| UefiParser.UefiParser.GetSubparser | src/eventlogs/uefi/base.py:199-204 | a fresh parser at offset 0 that inherits the uintn code but gets an empty digest-size table |
| UefiParser.UefiParser.GetGuid | src/eventlogs/uefi/base.py:206-208 | agrees with UefiBase.GetGuid |
| UefiParser.UefiParser.GetUtf16 | src/eventlogs/uefi/base.py:210-217 | the unit loop agrees with UefiBase.GetUtf16 |
| UefiParser.UefiParser.GetDigests | src/eventlogs/uefi/base.py:219-229 | the countdown loop agrees with UefiBase.GetDigests under the parser's table |
| UefiParser.UefiParser.DigestSizeTable | src/eventlogs/uefi/base.py:243-250 | the countdown loop agrees with UefiBase.DigestSizeTable |
| UefiParser.UefiParser.SpecIdFields | src/eventlogs/uefi/base.py:237-251 | agrees with UefiBase.SpecIdFields |
| UefiParser.UefiParser.HeaderRead | src/eventlogs/uefi/base.py:232-251 | agrees with UefiBase.HeaderRead |
| UefiParser.UefiParser.VariableRecord | src/eventlogs/uefi/events.py:130-134 | agrees with UefiBase.VariableRecordFields |
| UefiParser.UefiParser.ParseHeaderEvent | src/eventlogs/uefi/base.py:231-267 | agrees with UefiBase.ParseHeaderEvent; the context is replaced exactly when the header structure reads, even if the event type is then rejected |
| DevicePath.LookupNodeHandler | src/eventlogs/uefi/device_path.py:100-105 | each registered (type, subtype) pair has its own handler; every other pair falls back to the unknown node |
| DevicePath.Acpi | src/eventlogs/uefi/device_path.py:115-125 | an ACPI node reads hid and uid, 8 bytes in all |
| DevicePath.Pci | src/eventlogs/uefi/device_path.py:140-150 | a PCI node reads function and device, 1 byte each |
| DevicePath.NvmeNamespace | src/eventlogs/uefi/device_path.py:169-179 | an NVMe node reads a uint32 namespace id and an 8-byte uuid, 12 bytes in all |
| DevicePath.Signature | src/eventlogs/uefi/device_path.py:214-220 | signature type 0 gives none, 1 the big-endian value of the first 4 bytes, 2 all 16 bytes; any other type fails |
| DevicePath.HardDrive | src/eventlogs/uefi/device_path.py:204-230 | a hard-drive node reads 38 bytes and succeeds iff the signature type is known; number, start and size are the little-endian values of bytes 0..4, 4..12 and 12..20, the MBR and signature types bytes 36 and 37, and the signature decodes from bytes 20..36 |
| DevicePath.DecodeNode | src/eventlogs/uefi/device_path.py:245-272 | a file path or unknown node keeps its whole body; an entire-end node reads nothing |
| DevicePath.NodeHeader | src/eventlogs/uefi/device_path.py:285-291 | type, subtype and a 2-byte length; a type outside DeviceType fails with UnexpectedType |
| DevicePath.NodeEntry | src/eventlogs/uefi/device_path.py:285-295 | a node moves at least 4 bytes on and ends inside the buffer |
| DevicePath.NodeEntryValue | src/eventlogs/uefi/device_path.py:285-295 | a node spans exactly its declared length, carries its device type and subtype, and its body is the handler's decoding of the bytes after the 4-byte header |
| DevicePath.NodeEntryAdvances | src/eventlogs/uefi/device_path.py:284-295 | a node read is defined at every offset and moves at least 4 bytes on |
| DevicePath.ShortNodeLengthFails | src/eventlogs/uefi/device_path.py:291-292 | a node length below 4 fails with the negative body size |
| DevicePath.LongNodeLengthFails | src/eventlogs/uefi/device_path.py:291-292 | a node length past the buffer fails with ShortBuffer |
| DevicePath.UnknownDeviceTypeFails | src/eventlogs/uefi/device_path.py:287-290 | a device type outside DeviceType makes the whole path fail |
| DevicePath.NodeRun | src/eventlogs/uefi/device_path.py:284-296 | the node loop consumes the whole buffer, at least 4 bytes per node |
| DevicePath.NodeRunOfTiling | src/eventlogs/uefi/device_path.py:284-296 | nodes that lie back to back from the start to the end of the buffer are exactly what the node loop reads, after the nodes it already had |
| DevicePath.ParseDevicePath | src/eventlogs/uefi/device_path.py:282-297 | a device path fills its buffer, and has at most a quarter as many nodes as bytes |
| DevicePath.ParseDevicePathOfTiling | src/eventlogs/uefi/device_path.py:282-297 | nodes that lie back to back from the start to the end of the buffer decode as a device path of exactly those nodes (with ParseDevicePathNodes: a path decodes iff its nodes tile the buffer) |
| DevicePath.ParseDevicePathNodes | src/eventlogs/uefi/device_path.py:282-297 | node i of a device path is the node read where node i − 1 ended (the first at the start), and the last ends at the end of the buffer |
| DevicePath.EntireEndExample | src/eventlogs/uefi/device_path.py:266-272 | `7F FF 04 00` decodes to one entire-end node |
| DevicePath.LoadOptionHeader | src/eventlogs/uefi/device_path.py:309-311 | succeeds iff 6 bytes remain and a NUL-terminated UTF-16 description follows them, failing otherwise with a short buffer; uint32 attributes, uint16 path-list length, then the description |
| DevicePath.BootVariable | src/eventlogs/uefi/device_path.py:308-321 | a boot option decodes iff its fixed part reads, the path-list bytes are there and they decode as a device path; it decodes its device paths from exactly the path-list bytes and takes every remaining byte as optional data |
| DevicePath.LoadOptionBody | src/eventlogs/uefi/device_path.py:312-316 | after the fixed part: succeeds iff the path-list bytes are there and decode, giving those paths and the rest of the buffer as optional data |
| DevicePath.BootOrderRun | src/eventlogs/uefi/device_path.py:339-341 | the boot-order loop consumes the whole buffer |
| DevicePath.BootOrderRunSpec | src/eventlogs/uefi/device_path.py:337-342 | the boot order succeeds iff the length is even, holding one uint16 per 2 bytes in order; an odd length fails on its last byte |
| DevicePath.BootOrder | src/eventlogs/uefi/device_path.py:337-342 | a boot order fills its buffer |
| DevicePath.OddBootOrderExample | src/eventlogs/uefi/device_path.py:340 | 3 bytes fail with ShortBuffer(2, 2, 1) |
| DevicePath.HexDigit | src/eventlogs/uefi/device_path.py:327 | a digit of `{order:04X}` is 0-9 or uppercase A-F |
| DevicePath.Hex4 | src/eventlogs/uefi/device_path.py:327 | `{order:04X}` has 4 characters |
| DevicePath.BootName | src/eventlogs/uefi/device_path.py:324-329 | a Boot#### name is 16 UTF-16LE bytes |
| DevicePath.HexDigitInjective | src/eventlogs/uefi/device_path.py:327 | distinct digit values render as distinct characters |
| DevicePath.Hex4Injective | src/eventlogs/uefi/device_path.py:327 | distinct numbers below 0x10000 render as distinct 4-digit strings |
| DevicePath.BootNameInjective | src/eventlogs/uefi/device_path.py:324-329 | distinct boot numbers give distinct variable names |
| DevicePath.BootOptionRegistered | src/eventlogs/uefi/device_path.py:324-329 | Boot0000 to BootFFFE are registered |
| DevicePath.BootFFFFNotRegistered | src/eventlogs/uefi/device_path.py:324 | BootFFFF is not registered |
| DevicePathParser.Acpi | src/eventlogs/uefi/device_path.py:115-125 | agrees with DevicePath.Acpi |
| DevicePathParser.Pci | src/eventlogs/uefi/device_path.py:140-150 | agrees with DevicePath.Pci |
| DevicePathParser.NvmeNamespace | src/eventlogs/uefi/device_path.py:169-179 | agrees with DevicePath.NvmeNamespace |
| DevicePathParser.HardDrive | src/eventlogs/uefi/device_path.py:204-230 | agrees with DevicePath.HardDrive |
| DevicePathParser.DecodeNode | src/eventlogs/uefi/device_path.py:294-295 | agrees with DevicePath.DecodeNode for every handler |
| DevicePathParser.ParseNode | src/eventlogs/uefi/device_path.py:285-296 | agrees with DevicePath.NodeEntry; the body decodes in a sub-parser |
| DevicePathParser.ParseDevicePath | src/eventlogs/uefi/device_path.py:282-297 | the while-bytes-remain loop agrees with DevicePath.ParseDevicePath |
| DevicePathParser.BootVariable | src/eventlogs/uefi/device_path.py:308-321 | agrees with DevicePath.BootVariable |
| DevicePathParser.BootOrder | src/eventlogs/uefi/device_path.py:337-342 | the while-bytes-remain loop agrees with DevicePath.BootOrder |
| SecureBoot.SecureBootVariable | src/eventlogs/uefi/secureboot.py:25-29 | reads 1 byte; enabled iff it is nonzero; an empty buffer fails |
| SecureBoot.LookupSignatureHandler | src/eventlogs/uefi/secureboot.py:71-74 | the X509 handler exactly for the X509 GUID, else the unknown handler |
| SecureBoot.DecodeSignatureData | src/eventlogs/uefi/secureboot.py:53-59 | succeeds iff 16 bytes remain: the owner GUID, then every remaining byte; X509 iff the X509 handler |
| SecureBoot.SignatureEntry | src/eventlogs/uefi/secureboot.py:112-116 | one pass of the signature loop reads signature_size bytes, at least 16, inside the buffer |
| SecureBoot.SignatureEntryValue | src/eventlogs/uefi/secureboot.py:112-116 | a pass succeeds iff signature_size is at least 16 and that many bytes remain; the entry is the signature data decoded from exactly those bytes with the handler of the list's type |
| SecureBoot.SignatureStepStrides | src/eventlogs/uefi/secureboot.py:112-117 | a pass is defined at every offset and reads exactly signature_size bytes |
| SecureBoot.SignatureRun | src/eventlogs/uefi/secureboot.py:111-117 | the signature loop keeps earlier entries and ends exactly list_left bytes later |
| SecureBoot.SignatureRunOutcome | src/eventlogs/uefi/secureboot.py:111-117 | the signature loop succeeds iff list_left is 0, or is positive, within the bytes left, a multiple of signature_size, with signature_size at least the 16-byte owner GUID |
| SecureBoot.SignatureRunStep | src/eventlogs/uefi/secureboot.py:111-117 | one turn of the signature loop: a failing pass fails the loop with its error, else its entry is appended and the loop goes on signature_size bytes later with that much less list left |
| SecureBoot.SignatureRunCount | src/eventlogs/uefi/secureboot.py:111-117 | on success, number of entries × signature_size equals the list length covered |
| SecureBoot.SignatureRunEntry | src/eventlogs/uefi/secureboot.py:112-116 | the i-th entry is the signature data decoded from exactly the i-th signature_size bytes |
| SecureBoot.ShortSignatureSizeFails | src/eventlogs/uefi/secureboot.py:112-115 | a signature_size below 16 with a nonzero list length fails on the first entry, so the loop terminates |
| SecureBoot.NegativeListLeftFails | src/eventlogs/uefi/secureboot.py:109-117 | a negative remaining list length never reaches 0 exactly and fails |
| SecureBoot.ListFields | src/eventlogs/uefi/secureboot.py:104-107 | a GUID and three uint32 fields, 28 bytes |
| SecureBoot.ListBody | src/eventlogs/uefi/secureboot.py:108-117 | succeeds iff the header bytes are there and the signature loop accepts the given list length; the list keeps its type and header, entries × signature_size is that length, and it ends after header and entries |
| SecureBoot.SignatureListAsWritten | src/eventlogs/uefi/secureboot.py:103-122 | as written: succeeds iff the fixed fields and header are there and the loop accepts list_size − 28; entries × signature_size = list_size − 28, and the list ends header_size bytes past list_size |
| SecureBoot.NonEmptyHeaderFailsAsWritten | src/eventlogs/uefi/secureboot.py:108-111 | as written, a list that fills its list_size exactly with a non-empty header fails |
| SecureBoot.DecodeSignatureList | src/eventlogs/uefi/secureboot.py:103-122 | corrected: succeeds iff the fixed fields and header are there and the loop accepts list_size − 28 − header_size; a list ends inside the buffer, at least its 28 fixed bytes on |
| SecureBoot.DecodeSignatureListValue | src/eventlogs/uefi/secureboot.py:103-122 | corrected: the list holds its type and header bytes, entries × signature_size = list_size − 28 − header_size, and the list ends exactly list_size bytes after its start |
| SecureBoot.EmptyHeaderAgrees | src/eventlogs/uefi/secureboot.py:108-109 | with an empty header the as-written and corrected lists are the same |
| SecureBoot.SignatureListAdvances | src/eventlogs/uefi/secureboot.py:132-134 | a list read is defined at every offset and moves at least 28 bytes on |
| SecureBoot.SignatureListRun | src/eventlogs/uefi/secureboot.py:132-134 | the list loop consumes the whole buffer, at least 28 bytes per list |
| SecureBoot.SignaturesVariable | src/eventlogs/uefi/secureboot.py:130-137 | signature lists fill the variable, at most one per 28 bytes |
| SecureBoot.SignatureListRunOfTiling | src/eventlogs/uefi/secureboot.py:132-134 | lists that lie back to back from the start to the end of the buffer are exactly what the list loop reads, after the lists it already had |
| SecureBoot.SignaturesVariableOfTiling | src/eventlogs/uefi/secureboot.py:130-137 | lists that lie back to back from the start to the end of the buffer decode as a signature database of exactly those lists (with SignaturesVariableLists: a database decodes iff its lists tile the buffer) |
| SecureBoot.SignaturesVariableLists | src/eventlogs/uefi/secureboot.py:130-137 | list i of a signature database is the list read where list i − 1 ended (the first at the start), and the last ends at the end of the variable |
| SecureBoot.VariableAuthorityEvent | src/eventlogs/uefi/secureboot.py:163-183 | succeeds iff the variable record fills the payload and its data holds at least 16 bytes; the data is always an unknown signature |
| SecureBootParser.SecureBootVariable | src/eventlogs/uefi/secureboot.py:25-29 | agrees with SecureBoot.SecureBootVariable |
| SecureBootParser.DecodeSignatureData | src/eventlogs/uefi/secureboot.py:53-88 | agrees with SecureBoot.DecodeSignatureData |
| SecureBootParser.Signatures | src/eventlogs/uefi/secureboot.py:111-117 | the list_left loop agrees with SecureBoot.SignatureRun |
| SecureBootParser.ListFields | src/eventlogs/uefi/secureboot.py:104-107 | agrees with SecureBoot.ListFields |
| SecureBootParser.ListBody | src/eventlogs/uefi/secureboot.py:108-117 | agrees with SecureBoot.ListBody |
| SecureBootParser.SignatureList | src/eventlogs/uefi/secureboot.py:103-122 | agrees with the corrected SecureBoot.DecodeSignatureList |
| SecureBootParser.SignaturesVariable | src/eventlogs/uefi/secureboot.py:130-137 | the while-bytes-remain loop agrees with SecureBoot.SignaturesVariable |
| SecureBootParser.VariableAuthorityEvent | src/eventlogs/uefi/secureboot.py:163-183 | agrees with SecureBoot.VariableAuthorityEvent |
| UefiEvents.BootOptionNameLength | src/eventlogs/uefi/device_path.py:324-329 | every registered boot-option name is 16 bytes |
| UefiEvents.LookupVariableHandler | src/eventlogs/uefi/base.py:147-152 | keyed by (GUID, name): Boot#### and BootOrder and SecureBoot under the global GUID, PK/KEK/db/dbx as signature databases, anything else unknown |
| UefiEvents.BootVariableLookup | src/eventlogs/uefi/device_path.py:324-329 | Boot0000 to BootFFFE dispatch to the boot-option decoder, BootFFFF falls back to unknown |
| UefiEvents.DecodeVariable | src/eventlogs/uefi/base.py:90-93 | an unknown variable keeps all its bytes; a boot order succeeds iff its length is even; SecureBoot iff at least one byte; a boot option iff the load option decodes; a signature database iff the database decodes; each successful decoding is the variant of its handler holding exactly what that handler's decoder returns |
| UefiEvents.VariableDataEvent | src/eventlogs/uefi/events.py:127-147 | succeeds iff the variable record reads, fills the payload exactly and its data decodes with the handler its (GUID, name) selects; otherwise the record's error, then the decoder's, then NotConsumed(trailing bytes) |
| UefiEvents.CrtmContentsEvent | src/eventlogs/uefi/events.py:29-43 | reads ds = first byte, then ds description bytes and two uint64s: exactly 1 + ds + 16 bytes |
| UefiEvents.FirmwareBlobEvent | src/eventlogs/uefi/events.py:79-90 | two uint64s, exactly 16 bytes |
| UefiEvents.BootServicesApplicationEvent | src/eventlogs/uefi/events.py:212-230 | a boot-services application event reads at least its 32 fixed bytes and ends inside the buffer |
| UefiEvents.ImageFields | src/eventlogs/uefi/events.py:214-217 | image location, length, link-time address and device-path length are the little-endian values of bytes 0..8, 8..16, 16..24 and 24..32 |
| UefiEvents.BootServicesApplicationValue | src/eventlogs/uefi/events.py:212-230 | the event succeeds iff the announced device-path bytes are inside the buffer and decode; it holds the three image fields and those device paths, and ends after them |
| UefiEvents.HandoffRun | src/eventlogs/uefi/events.py:293-297 | the table loop succeeds iff count × 24 bytes remain, appending count entries in order |
| UefiEvents.HandoffRunEntry | src/eventlogs/uefi/events.py:293-297 | the i-th table entry is the GUID and uint64 at offset 24·i |
| UefiEvents.HandoffTablesEvent | src/eventlogs/uefi/events.py:288-303 | a uint64 count, then exactly that many 24-byte entries |
| UefiEvents.EventTagEvent | src/eventlogs/uefi/events.py:317-329 | uint32 id, uint32 length, then exactly that many bytes |
| UefiEvents.PartitionHeaderStart | src/eventlogs/uefi/events.py:355-361 | the first GPT header fields, including the reserved uint32, take 40 bytes |
| UefiEvents.PartitionHeaderStartValue | src/eventlogs/uefi/events.py:355-361 | signature, revision, header size, header CRC, my LBA and alternate LBA are the little-endian values of bytes 0..8, 8..12, 12..16, 16..20, 24..32 and 32..40 |
| UefiEvents.PartitionHeaderFields | src/eventlogs/uefi/events.py:354-383 | the GPT header is 92 bytes, with the disk GUID at 56 and the entry count at 80 |
| UefiEvents.PartitionHeaderFieldsValue | src/eventlogs/uefi/events.py:354-383 | every GPT header field: the start fields, first and last usable LBA at 40..48 and 48..56, the disk GUID at 56..72, the entry-array LBA at 72..80, the entry count, entry size and array CRC at 80..84, 84..88 and 88..92 |
| UefiEvents.PartitionEntryFields | src/eventlogs/uefi/events.py:400-414 | a partition entry is 128 bytes, ending in the 72-byte name |
| UefiEvents.PartitionEntryFieldsValue | src/eventlogs/uefi/events.py:400-414 | starting and ending LBA and the attributes are the little-endian values of bytes 32..40, 40..48 and 48..56 |
| UefiEvents.PartitionEntryRun | src/eventlogs/uefi/events.py:429-432 | the entry loop succeeds iff count × 128 bytes remain, appending count entries |
| UefiEvents.PartitionEntryRunEntry | src/eventlogs/uefi/events.py:429-432 | the i-th entry is the one decoded at offset 128·i |
| UefiEvents.PartitionEntryRunStep | src/eventlogs/uefi/events.py:429-432 | one turn of the entry loop: the entry at the offset is appended and the loop goes on 128 bytes later |
| UefiEvents.GptEvent | src/eventlogs/uefi/events.py:423-439 | a 92-byte header, a uint64 count, then exactly that many 128-byte entries |
| UefiEvents.LookupEventHandler | src/eventlogs/uefi/base.py:123-131 | the (type, pcr) handler if registered, else the type-only handler, else unknown |
| UefiEvents.RegistriesDisjoint | src/eventlogs/uefi/events.py:46-111 | no event type is registered both with and without a pcr |
| UefiEvents.CrtmLookup | src/eventlogs/uefi/events.py:46-70 | S-CRTM contents and version are decoded only at pcr 0 |
| UefiEvents.FirmwareBlobLookup | src/eventlogs/uefi/events.py:93-111 | the firmware blob is decoded at pcr 0, 2 and 4 only |
| UefiEvents.VariableAuthorityLookup | src/eventlogs/uefi/secureboot.py:186-190 | variable authority is decoded at pcr 7 only |
| UefiEvents.TypeOnlyLookup | src/eventlogs/uefi/events.py:150-157 | a type-only registration applies at every pcr |
| UefiEvents.DecodePayload | src/eventlogs/uefi/base.py:281-282 | unknown, S-CRTM version, separator, action, IPL and post-code payloads keep all their bytes unchanged |
| UefiEvents.EventHeaderFields | src/eventlogs/uefi/base.py:270-278 | succeeds iff 8 bytes remain, the event type is known and the digests read under the session table; a short buffer, UnexpectedType, or the digest reader's error otherwise; pcr and event type are the two uint32s |
| UefiEvents.ParseEvent | src/eventlogs/uefi/base.py:269-283 | an event decodes iff its header fields read, the uint32-prefixed payload is there and the handler looked up by (type, pcr) decodes it; otherwise the first failing step's error; the value is the header and the decoded payload, ending after the payload |
| UefiEvents.UnknownEventKeepsPayload | src/eventlogs/uefi/base.py:66-76 | an event with no handler keeps its whole payload as bytes |
| UefiEventsParser.CrtmContentsEvent | src/eventlogs/uefi/events.py:29-43 | agrees with UefiEvents.CrtmContentsEvent |
| UefiEventsParser.FirmwareBlobEvent | src/eventlogs/uefi/events.py:79-90 | agrees with UefiEvents.FirmwareBlobEvent |
| UefiEventsParser.DecodeVariable | src/eventlogs/uefi/events.py:136-137 | agrees with UefiEvents.DecodeVariable for every handler |
| UefiEventsParser.VariableDataEvent | src/eventlogs/uefi/events.py:127-147 | agrees with UefiEvents.VariableDataEvent |
| UefiEventsParser.BootServicesApplicationEvent | src/eventlogs/uefi/events.py:212-230 | agrees with UefiEvents.BootServicesApplicationEvent |
| UefiEventsParser.ImageFields | src/eventlogs/uefi/events.py:214-217 | agrees with UefiEvents.ImageFields |
| UefiEventsParser.HandoffTablesEvent | src/eventlogs/uefi/events.py:288-303 | the countdown loop agrees with UefiEvents.HandoffTablesEvent |
| UefiEventsParser.EventTagEvent | src/eventlogs/uefi/events.py:317-329 | agrees with UefiEvents.EventTagEvent |
| UefiEventsParser.PartitionHeader | src/eventlogs/uefi/events.py:354-383 | agrees with UefiEvents.PartitionHeaderFields |
| UefiEventsParser.PartitionEntry | src/eventlogs/uefi/events.py:400-414 | agrees with UefiEvents.PartitionEntryFields |
| UefiEventsParser.PartitionEntries | src/eventlogs/uefi/events.py:429-432 | the countdown loop agrees with UefiEvents.PartitionEntryRun |
| UefiEventsParser.GptEvent | src/eventlogs/uefi/events.py:423-439 | agrees with UefiEvents.GptEvent |
| UefiEventsParser.DecodePayload | src/eventlogs/uefi/base.py:281-282 | agrees with UefiEvents.DecodePayload for every handler |
| UefiEventsParser.ParseEvent | src/eventlogs/uefi/base.py:269-283 | agrees with UefiEvents.ParseEvent under the parser's context |

## Left out

- String rendering is not modelled: UUID text, the `name` properties that decode UTF-16, `__str__` beyond `Common.Name`, and exact error-message texts. Errors carry only their structured fields.
- The exception classes are not modelled. The code raises bare `EOFError`, `ValueError`, `KeyError`, `AttributeError` and `NotImplementedError`. The model returns `Err` with one constructor per kind of raise site instead.
- The handler registries are not built at import time. They are constant tables (`PCR_HANDLERS`, `TYPE_HANDLERS`) and membership predicates (`IsBootOptionName`, `IsSignatureDatabase`). The 65 535-step Boot#### registration loop becomes the predicate "Boot plus 4 uppercase hex digits, below FFFF".
- The Python class hierarchy is replaced by closed tagged unions. UEFI payloads, variables, device-path nodes and signature data each keep an Unknown arm.
- Integers are unbounded. Every width the code reads is explicit in the byte counts, so no wrap-around arises.
- `secureboot.py` imports `UEFIEventType` from a module that does not define it. The model assumes the base module's event-type enum was meant.
- `UefiParser.UefiParser.UintnSize` is modelled, but no handler in the core calls it, so the stored `uintn` code has no further effect on decoding.
- SignatureListRun: signature lists are decoded with the corrected list length `list_size − 28 − header_size` (`DecodeSignatureList`). The code (src/eventlogs/uefi/secureboot.py:109) loops over `list_size − 28`, which `SignatureListAsWritten` models. The two agree whenever `header_size` is 0 (`EmptyHeaderAgrees`). A list with a non-empty header, which the code rejects or misreads, is accepted by the model.
- SignaturesVariable: `SecureBoot.SignaturesVariable` and `SecureBootParser.SignaturesVariable` read their lists with the corrected list length, as the line on `SignatureListRun` says; each list is stated by `SignaturesVariableLists`, and the converse (lists that tile the buffer are read) by `SignaturesVariableOfTiling` and `SignatureListRunOfTiling`.
- SignatureList: `SecureBootParser.SignatureList` tracks the corrected `DecodeSignatureList`, not the code's `list_size − 28` reading; see the line on `SignatureListRun`.
- VersionFields: the function's own contract (and `CelParser.TlvParser.VersionFields`, which tracks it) gives only the offsets; the decoded major and minor are stated by `VersionFieldsValues`.
- PcClientStdFields: the function's own contract gives only the offsets; event_type and event_data are stated by `PcClientStdFieldsValues`.
- ImaTemplateFields: the function's own contract gives only the offsets; template_name and template_data are stated by `ImaTemplateFieldsValues`.
- ParseMgmtVersionEvent: the grammar function and `CelParser.TlvParser.ParseMgmtVersionEvent` state the variant, the header and full consumption; major and minor are stated by `ParseMgmtVersionEventValue`.
- ParsePcClientStdEvent: the grammar function and the parser method state the variant, the header and full consumption; the field values are stated by `ParsePcClientStdEventValue`.
- ParseImaTemplateEvent: the grammar function and the parser method state the variant, the header and full consumption; the field values are stated by `ParseImaTemplateEventValue`.
- ParseMgmtEvent: the grammar function and the parser method state the management type, the event kind and the bytes consumed; the value of each kind is stated by `ParseMgmtVersionValue`, `ParseMgmtTimestampValue` and `ParseMgmtStateTransValue`.
- ParseHeader: the grammar function and the parser method state the record number and the bounds; handle, digests, content type and content length are stated by `ParseHeaderValue`.
- ParseEvent: `CelGrammar.ParseEvent` and its parser method state the bounds, and the decoded content is stated by `ParseEventContent`; `ImaGrammar.ParseEvent` and its parser method state pcr, digests and bounds, the fields by `ParseEventValue`, and when a record decodes (with the error otherwise) by `ParseEventOutcome`.
- PlainField: the function's own contract gives the tag; the value of each kind is stated by `PlainFieldValue`.
- DecodeField: the function's own contract gives success and the tag; the decoded value is stated by `DecodeFieldByKind`.
- ParseField: the grammar function and `ImaParser.ImaParser.ParseField` give success, the tag and the bounds; the value and the exact end are stated by `ParseFieldValue`.
- ParseFields: the grammar function and `ImaParser.ImaParser.ParseFields` give the count and the bounds; the i-th value is stated by `ParseFieldsEntry`, the tags by `ParseFieldsTags`.
- DigestRun: the function's own contract gives the digest sizes and kept entries; the map is stated by `DigestRunContents`, and for `UefiBase.GetDigests` by `GetDigestsContents`.
- DigestSizeRun: the function's own contract gives the offsets; the table is stated by `DigestSizeRunContents`.
- DigestSizeTable: the grammar function and `UefiParser.UefiParser.DigestSizeTable` give the offsets; the table is stated by `DigestSizeTableContents`.
- NodeRun: the function's own contract gives the bounds and the node count; each node is stated by `ParseDevicePathNodes` and `NodeEntryValue`, and the converse (nodes that tile the buffer are read) by `NodeRunOfTiling`.
- ParseDevicePath: the grammar function and `DevicePathParser.ParseDevicePath` give the bounds; each node is stated by `ParseDevicePathNodes` and `NodeEntryValue`, and the converse by `ParseDevicePathOfTiling`.
- SignatureRun: the function's own contract gives the kept entries and the end; the count is stated by `SignatureRunCount` and each entry by `SignatureRunEntry`.
- DecodeVariable: `UefiEvents.DecodeVariable` states, for every handler, when it succeeds and which decoder's value it holds, and `UefiEventsParser.DecodeVariable` agrees with it; a signature database decodes with the corrected list length (see the line on `SignatureListRun` above), and its lists are stated by `SignaturesVariableLists`.
- BootServicesApplicationEvent: the grammar function and the parser method give the bounds and the variant; the three image fields and the device paths are stated by `BootServicesApplicationValue`.
- PartitionHeaderStart: the function's own contract gives the bounds; the field values are stated by `PartitionHeaderStartValue`.
- PartitionHeaderFields: the function's own contract gives the bounds, the disk GUID and the entry count; every other field is stated by `PartitionHeaderFieldsValue`.
- PartitionHeader: `UefiEventsParser.PartitionHeader` tracks `PartitionHeaderFields`, whose field values are stated by `PartitionHeaderFieldsValue`.
- PartitionEntryFields: the function's own contract gives the bounds, the GUIDs and the name; the LBAs and the attributes are stated by `PartitionEntryFieldsValue`.
- PartitionEntry: `UefiEventsParser.PartitionEntry` tracks `PartitionEntryFields`, whose LBAs and attributes are stated by `PartitionEntryFieldsValue`.
- UefiBase.HeaderUnknownTypeStillSetsContext: the grammar lemma states the failure. The context replacement that precedes it is stated by `UefiParser.UefiParser.ParseHeaderEvent`.
- Reading several records from one log, the test helpers' file loading and base64 decoding are I/O and are not part of this model.

## Findings

| source | as written | input that shows it | evidently intended | confidence | as-written member | corrected member |
|---|---|---|---|---|---|---|
| src/eventlogs/uefi/secureboot.py:108-111 | the signature loop runs over `list_size − 28` bytes even though `header_size` header bytes were already read inside the list | a list whose `list_size` is exactly the bytes it occupies and whose `header_size` is 1 or more: the loop runs past the list's end and fails, or swallows the next list | the loop covers `list_size − 28 − header_size` bytes, so the list ends exactly `list_size` bytes after its start (section 32.4.1 of the UEFI Specification 2.9, `SignatureListSize`) | not executed | SecureBoot.SignatureListAsWritten (shown by SecureBoot.NonEmptyHeaderFailsAsWritten) | SecureBoot.DecodeSignatureList |
