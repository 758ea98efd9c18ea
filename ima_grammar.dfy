/** The Linux IMA measurement-list record format as pure decoding steps: a
    uint32 PCR, a 20-byte sha1 digest, a length-prefixed template descriptor
    name and length-prefixed template data, the latter a run of
    length-prefixed fields whose kinds the descriptor fixes. Integers use the
    parser's byte order (little-endian unless chosen otherwise).
    `ImaParser.ImaParser` runs the same steps as methods over a cursor. */
module ImaGrammar {
  import opened Common

  /** `IMATemplateField`: the kinds of template field. */
  datatype Field =
    | D | N | DNg | DNgV2 | DModSig | NNg | Sig | ModSig | Buf | EvmSig
    | Iuid | Igid | IMode | XattrNames | XattrLengths | XattrValues

  /** A decoded template field (the `IMAField` subclasses). */
  datatype FieldValue =
    | DigestValue(digest: bytes)                                    // d
    | NameValue(name: bytes)                                        // n
    | DigestNgValue(algorithm: bytes, digest: bytes)                // d-ng
    | DigestNgV2Value(kind: bytes, algorithm: bytes, digest: bytes) // d-ngv2
    | ModSigDigestValue(digest: bytes)                              // d-modsig
    | NameNgValue(name: bytes)                                      // n-ng
    | SigValue(signature: bytes)                                    // sig
    | ModSigValue(signature: bytes)                                 // modsig
    | BufValue(buffer: bytes)                                       // buf
    | EvmSigValue(signature: bytes)                                 // evmsig
    | IuidValue(id: nat)                                            // iuid
    | IgidValue(id: nat)                                            // igid
    | IModeValue(mode: nat)                                         // imode
    | XattrNamesValue(names: seq<bytes>)                            // xattrnames
    | XattrLengthsValue(lengths: seq<nat>)                          // xattrlengths
  {
    /** The `field` attribute: which kind of field this value is. */
    function Tag(): Field
    {
      match this
      case DigestValue(_) => D
      case NameValue(_) => N
      case DigestNgValue(_, _) => DNg
      case DigestNgV2Value(_, _, _) => DNgV2
      case ModSigDigestValue(_) => DModSig
      case NameNgValue(_) => NNg
      case SigValue(_) => Sig
      case ModSigValue(_) => ModSig
      case BufValue(_) => Buf
      case EvmSigValue(_) => EvmSig
      case IuidValue(_) => Iuid
      case IgidValue(_) => Igid
      case IModeValue(_) => IMode
      case XattrNamesValue(_) => XattrNames
      case XattrLengthsValue(_) => XattrLengths
    }
  }

  /** `IMATemplateEvent` */
  datatype Event = Event(pcr: nat, fields: seq<FieldValue>, digests: map<DigestAlgorithm, bytes>)

  // ----------------------------------------------------------- descriptors

  const IMA: bytes := [0x69, 0x6D, 0x61]  // "ima"
  const IMA_NG: bytes := [0x69, 0x6D, 0x61, 0x2D, 0x6E, 0x67]  // "ima-ng"
  const IMA_NGV2: bytes := [0x69, 0x6D, 0x61, 0x2D, 0x6E, 0x67, 0x76, 0x32]  // "ima-ngv2"
  const IMA_SIG: bytes := [0x69, 0x6D, 0x61, 0x2D, 0x73, 0x69, 0x67]  // "ima-sig"
  const IMA_SIGV2: bytes := [0x69, 0x6D, 0x61, 0x2D, 0x73, 0x69, 0x67, 0x76, 0x32]  // "ima-sigv2"
  const IMA_BUF: bytes := [0x69, 0x6D, 0x61, 0x2D, 0x62, 0x75, 0x66]  // "ima-buf"
  const IMA_MODSIG: bytes := [0x69, 0x6D, 0x61, 0x2D, 0x6D, 0x6F, 0x64, 0x73, 0x69, 0x67]  // "ima-modsig"
  const EVM_SIG: bytes := [0x65, 0x76, 0x6D, 0x2D, 0x73, 0x69, 0x67]  // "evm-sig"

  /** The descriptor names in table order. */
  const DESCRIPTOR_NAMES: seq<bytes> :=
    [IMA, IMA_NG, IMA_NGV2, IMA_SIG, IMA_SIGV2, IMA_BUF, IMA_MODSIG, EVM_SIG]

  /** `IMATemplateDescriptor.expand(descriptor)`: the field kinds a template
      descriptor name stands for, in record order. */
  function Expand(descriptor: bytes): (r: Result<seq<Field>>)
    ensures r.Ok? <==> descriptor in DESCRIPTOR_NAMES
    ensures r.Err? ==> r.error == UnknownDescriptor(descriptor, DESCRIPTOR_NAMES)
    ensures r.Ok? ==> 2 <= |r.value| && r.value[0] in {D, DNg, DNgV2} && r.value[1] in {N, NNg}
    ensures r.Ok? ==> (XattrValues in r.value <==> descriptor == EVM_SIG)
  {
    if descriptor == IMA then Ok([D, N])
    else if descriptor == IMA_NG then Ok([DNg, NNg])
    else if descriptor == IMA_NGV2 then Ok([DNgV2, NNg])
    else if descriptor == IMA_SIG then Ok([DNg, NNg, Sig])
    else if descriptor == IMA_SIGV2 then Ok([DNgV2, NNg, Sig])
    else if descriptor == IMA_BUF then Ok([DNg, NNg, Buf])
    else if descriptor == IMA_MODSIG then Ok([DNg, NNg, Sig, DModSig, ModSig])
    else if descriptor == EVM_SIG then
      Ok([DNg, NNg, EvmSig, XattrNames, XattrLengths, XattrValues, Iuid, Igid, IMode])
    else Err(UnknownDescriptor(descriptor, DESCRIPTOR_NAMES))
  }

  /** No two descriptor names are equal, so each selects exactly one entry of the table. */
  lemma DescriptorNamesDistinct()
    ensures forall i, j | 0 <= i < j < |DESCRIPTOR_NAMES| :: DESCRIPTOR_NAMES[i] != DESCRIPTOR_NAMES[j]
  {
  }

  // -------------------------------------------------------------- splitting

  const COLON: byte := 58
  const PIPE: byte := 124

  /** The parts joined back together with a separator between each two. */
  function Join(parts: seq<bytes>, sep: byte): bytes
    requires |parts| > 0
  {
    if |parts| == 1 then parts[0] else parts[0] + [sep] + Join(parts[1..], sep)
  }

  /** How many times `x` occurs in `s`. */
  function Count(s: bytes, x: byte): nat
  {
    multiset(s)[x]
  }

  /** `s.split(sep, n)`: split at the first `n` separators, the remainder
      staying whole in the last part. Scans front to back: a separator
      while splits remain opens a new part, any other byte extends the
      current one. */
  function SplitN(s: bytes, sep: byte, n: nat): (parts: seq<bytes>)
    decreases |s|
    ensures 0 < |parts| <= n + 1
  {
    if |s| == 0 then [[]]
    else if s[0] == sep && n > 0 then [[]] + SplitN(s[1..], sep, n - 1)
    else var p := SplitN(s[1..], sep, n); [[s[0]] + p[0]] + p[1..]
  }

  /** `s.split(sep)`: split at every separator. */
  function SplitAll(s: bytes, sep: byte): (parts: seq<bytes>)
    decreases |s|
    ensures 0 < |parts|
  {
    if |s| == 0 then [[]]
    else if s[0] == sep then [[]] + SplitAll(s[1..], sep)
    else var p := SplitAll(s[1..], sep); [[s[0]] + p[0]] + p[1..]
  }

  lemma CountCons(s: bytes, x: byte)
    requires |s| > 0
    ensures Count(s, x) == (if s[0] == x then 1 else 0) + Count(s[1..], x)
  {
    assert s == [s[0]] + s[1..];
    assert multiset(s) == multiset{s[0]} + multiset(s[1..]);
  }

  lemma {:induction false} CountBound(s: bytes, x: byte)
    ensures Count(s, x) <= |s|
    decreases |s|
  {
    if |s| > 0 {
      CountCons(s, x);
      CountBound(s[1..], x);
    }
  }

  lemma JoinCons(head: bytes, tail: seq<bytes>, sep: byte)
    requires |tail| > 0
    ensures Join([head] + tail, sep) == head + [sep] + Join(tail, sep)
  {
    assert ([head] + tail)[1..] == tail;
  }

  /** Extending the first part by one byte extends the joined value by that byte. */
  lemma {:induction false} JoinExtend(x: byte, p: seq<bytes>, sep: byte)
    requires |p| > 0
    ensures Join([[x] + p[0]] + p[1..], sep) == [x] + Join(p, sep)
  {
    if |p| > 1 {
      JoinCons([x] + p[0], p[1..], sep);
    }
  }

  /** The parts of a bounded split join back to the value. */
  lemma {:induction false} SplitNJoin(s: bytes, sep: byte, n: nat)
    ensures Join(SplitN(s, sep, n), sep) == s
    decreases |s|
  {
    if |s| > 0 {
      SplitNJoin(s[1..], sep, if s[0] == sep && n > 0 then n - 1 else n);
      if s[0] == sep && n > 0 {
        JoinCons([], SplitN(s[1..], sep, n - 1), sep);
      } else {
        JoinExtend(s[0], SplitN(s[1..], sep, n), sep);
      }
      assert s == [s[0]] + s[1..];
    }
  }

  /** Every part of a bounded split but the last is free of separators. */
  lemma {:induction false} SplitNSepFree(s: bytes, sep: byte, n: nat)
    ensures forall k | 0 <= k < |SplitN(s, sep, n)| - 1 :: sep !in SplitN(s, sep, n)[k]
    decreases |s|
  {
    if |s| > 0 {
      var parts := SplitN(s, sep, n);
      if s[0] == sep && n > 0 {
        SplitNSepFree(s[1..], sep, n - 1);
        var tail := SplitN(s[1..], sep, n - 1);
        assert forall k | 1 <= k < |parts| :: parts[k] == tail[k - 1];
      } else {
        SplitNSepFree(s[1..], sep, n);
        var p := SplitN(s[1..], sep, n);
        assert forall k | 1 <= k < |parts| :: parts[k] == p[k];
      }
    }
  }

  /** When fewer than `n + 1` parts came out, the last one holds no separator either. */
  lemma {:induction false} SplitNLastSepFree(s: bytes, sep: byte, n: nat)
    ensures |SplitN(s, sep, n)| <= n ==> sep !in SplitN(s, sep, n)[|SplitN(s, sep, n)| - 1]
    decreases |s|
  {
    if |s| > 0 {
      if s[0] == sep && n > 0 {
        SplitNLastSepFree(s[1..], sep, n - 1);
      } else {
        SplitNLastSepFree(s[1..], sep, n);
      }
    }
  }

  /** Splitting at most `n` times uses min(n, count) separators, one per new part. */
  lemma {:induction false} SplitNCount(s: bytes, sep: byte, n: nat)
    ensures |SplitN(s, sep, n)| == (if Count(s, sep) < n then Count(s, sep) else n) + 1
    decreases |s|
  {
    if |s| > 0 {
      CountCons(s, sep);
      SplitNCount(s[1..], sep, if s[0] == sep && n > 0 then n - 1 else n);
    }
  }

  /** A split whose bound no value of this length can reach is the full split. */
  lemma {:induction false} SplitAllIsSplitN(s: bytes, sep: byte, n: nat)
    requires n >= |s|
    ensures SplitAll(s, sep) == SplitN(s, sep, n)
    decreases |s|
  {
    if |s| > 0 {
      SplitAllIsSplitN(s[1..], sep, if s[0] == sep then n - 1 else n);
    }
  }

  /** The parts of a full split join back to the value, hold no separator,
      and there is one more of them than there are separators. */
  lemma SplitAllParts(s: bytes, sep: byte)
    ensures Join(SplitAll(s, sep), sep) == s
    ensures forall k | 0 <= k < |SplitAll(s, sep)| :: sep !in SplitAll(s, sep)[k]
    ensures |SplitAll(s, sep)| == Count(s, sep) + 1
  {
    SplitAllIsSplitN(s, sep, |s| + 1);
    SplitNJoin(s, sep, |s| + 1);
    SplitNSepFree(s, sep, |s| + 1);
    SplitNLastSepFree(s, sep, |s| + 1);
    SplitNCount(s, sep, |s| + 1);
    CountBound(s, sep);
  }

  /** Three parts join as the first, a separator, the second, a separator, the third. */
  lemma JoinThree(parts: seq<bytes>, sep: byte)
    requires |parts| == 3
    ensures Join(parts, sep) == parts[0] + [sep] + parts[1] + [sep] + parts[2]
  {
    assert parts[1..][1..] == parts[2..];
    assert Join(parts[2..], sep) == parts[2];
    assert Join(parts[1..], sep) == parts[1] + [sep] + parts[2];
  }

  // ----------------------------------------------------------- field values

  /** The `d-ng` value `algorithm:digest`, split at the first colon. */
  function DecodeDigestNg(fv: bytes): (r: Result<FieldValue>)
    ensures r.Ok? <==> COLON in fv
    ensures r.Err? ==> r.error == UnpackMismatch(2, 1)
    ensures r.Ok? ==> r.value.DigestNgValue? && COLON !in r.value.algorithm
                      && r.value.algorithm + [COLON] + r.value.digest == fv
  {
    var parts := SplitN(fv, COLON, 1);
    SplitNCount(fv, COLON, 1);
    SplitNJoin(fv, COLON, 1);
    SplitNSepFree(fv, COLON, 1);
    if |parts| != 2 then Err(UnpackMismatch(2, |parts|))
    else
      assert Join(parts[1..], COLON) == parts[1];
      Ok(DigestNgValue(parts[0], parts[1]))
  }

  /** The `d-ngv2` value `type:algorithm:digest`, split at the first two colons. */
  function DecodeDigestNgV2(fv: bytes): (r: Result<FieldValue>)
    ensures r.Ok? <==> Count(fv, COLON) >= 2
    ensures r.Err? ==> r.error == UnpackMismatch(3, Count(fv, COLON) + 1)
    ensures r.Ok? ==> r.value.DigestNgV2Value? && COLON !in r.value.kind && COLON !in r.value.algorithm
                      && r.value.kind + [COLON] + r.value.algorithm + [COLON] + r.value.digest == fv
  {
    var parts := SplitN(fv, COLON, 2);
    SplitNCount(fv, COLON, 2);
    SplitNJoin(fv, COLON, 2);
    SplitNSepFree(fv, COLON, 2);
    if |parts| != 3 then Err(UnpackMismatch(3, |parts|))
    else
      JoinThree(parts, COLON);
      Ok(DigestNgV2Value(parts[0], parts[1], parts[2]))
  }

  /** The `xattrlengths` loop over a sub-buffer: uint32 values until the
      sub-buffer is exhausted. */
  function XattrLengthRun(fv: bytes, off: nat, order: ByteOrder, acc: seq<nat>): (r: Step<seq<nat>>)
    requires off <= |fv|
    decreases |fv| - off
    ensures r.Ok? ==> r.value.1 == |fv|
  {
    if off == |fv| then Ok((acc, off))
    else
      var (b, next) :- GetBytes(fv, off, 4);
      XattrLengthRun(fv, next, order, acc + [FromBytes(b, order)])
  }

  /** The `xattrlengths` value: the sub-buffer read as consecutive uint32s. */
  function DecodeXattrLengths(fv: bytes, order: ByteOrder): (r: Result<FieldValue>)
    ensures r.Ok? <==> |fv| % 4 == 0
    ensures r.Ok? ==> r.value.XattrLengthsValue? && |r.value.lengths| == |fv| / 4
                      && forall j | 0 <= j < |fv| / 4 :: r.value.lengths[j] == Word(fv, j, order)
    ensures r.Err? ==> r.error == ShortBuffer(|fv| - |fv| % 4, 4, |fv| % 4)
  {
    XattrLengthRunSpec(fv, 0, order, []);
    var (lengths, _) :- XattrLengthRun(fv, 0, order, []);
    Ok(XattrLengthsValue(lengths))
  }

  /** The k-th 4-byte group of `fv`, read as an integer. */
  function Word(fv: bytes, k: nat, order: ByteOrder): nat
    requires 4 * k + 4 <= |fv|
  {
    FromBytes(fv[4 * k..4 * k + 4], order)
  }

  /** One turn of the length loop, for a whole uint32 ahead. */
  lemma XattrLengthRunStep(fv: bytes, k: nat, order: ByteOrder, acc: seq<nat>)
    requires 4 * k + 4 <= |fv|
    ensures XattrLengthRun(fv, 4 * k, order, acc) == XattrLengthRun(fv, 4 * (k + 1), order, acc + [Word(fv, k, order)])
  {
    assert GetBytes(fv, 4 * k, 4) == Ok((fv[4 * k..4 * k + 4], 4 * (k + 1)));
  }

  /** Whether the length loop succeeds, how many values it adds, and the error
      of the last read when it does not. */
  lemma {:induction false} XattrLengthRunOutcome(fv: bytes, k: nat, order: ByteOrder, acc: seq<nat>)
    requires 4 * k <= |fv|
    ensures var r := XattrLengthRun(fv, 4 * k, order, acc);
            (r.Ok? <==> |fv| % 4 == 0)
            && (r.Err? ==> r.error == ShortBuffer(|fv| - |fv| % 4, 4, |fv| % 4))
            && (r.Ok? ==> |r.value.0| == |acc| + |fv| / 4 - k && r.value.0[..|acc|] == acc)
    decreases |fv| - 4 * k
  {
    if 4 * k + 4 <= |fv| {
      var w := Word(fv, k, order);
      XattrLengthRunStep(fv, k, order, acc);
      XattrLengthRunOutcome(fv, k + 1, order, acc + [w]);
      var r := XattrLengthRun(fv, 4 * (k + 1), order, acc + [w]);
      if r.Ok? {
        assert r.value.0[..|acc|] == r.value.0[..|acc| + 1][..|acc|];
      }
    } else if 4 * k < |fv| {
      assert |fv| % 4 == |fv| - 4 * k;
    } else {
      assert |fv| / 4 == k;
    }
  }

  /** The value the length loop adds for group `j` is that group's word. */
  lemma {:induction false} XattrLengthRunWord(fv: bytes, k: nat, order: ByteOrder, acc: seq<nat>, j: nat)
    requires 4 * k <= 4 * j && 4 * j + 4 <= |fv| && |fv| % 4 == 0
    ensures var r := XattrLengthRun(fv, 4 * k, order, acc);
            r.Ok? && |acc| + j - k < |r.value.0| && r.value.0[|acc| + j - k] == Word(fv, j, order)
    decreases j - k
  {
    var w := Word(fv, k, order);
    XattrLengthRunStep(fv, k, order, acc);
    XattrLengthRunOutcome(fv, k + 1, order, acc + [w]);
    var r := XattrLengthRun(fv, 4 * (k + 1), order, acc + [w]);
    if j > k {
      XattrLengthRunWord(fv, k + 1, order, acc + [w], j);
    } else {
      assert r.value.0[|acc|] == r.value.0[..|acc| + 1][|acc|];
    }
  }

  /** The length loop succeeds exactly when the value is a whole number of
      uint32s, yielding |fv| / 4 of them in order; otherwise the last read
      reports the `|fv| % 4` bytes it found. */
  lemma XattrLengthRunSpec(fv: bytes, k: nat, order: ByteOrder, acc: seq<nat>)
    requires 4 * k <= |fv|
    ensures var r := XattrLengthRun(fv, 4 * k, order, acc);
            (r.Ok? <==> |fv| % 4 == 0)
            && (r.Err? ==> r.error == ShortBuffer(|fv| - |fv| % 4, 4, |fv| % 4))
            && (r.Ok? ==> |r.value.0| == |acc| + |fv| / 4 - k
                          && r.value.0[..|acc|] == acc
                          && forall j | k <= j < |fv| / 4 :: r.value.0[|acc| + j - k] == Word(fv, j, order))
  {
    XattrLengthRunOutcome(fv, k, order, acc);
    if |fv| % 4 == 0 {
      forall j | k <= j < |fv| / 4
        ensures XattrLengthRun(fv, 4 * k, order, acc).value.0[|acc| + j - k] == Word(fv, j, order)
      {
        XattrLengthRunWord(fv, k, order, acc, j);
      }
    }
  }

  /** `n` bytes hold a whole number of uint32s, counted off four at a time
      so that the solver never meets a remainder. */
  predicate WholeWords(n: nat)
    decreases n
  {
    if n < 4 then n == 0 else WholeWords(n - 4)
  }

  lemma {:induction false} WholeWordsIsDivisible(n: nat)
    ensures WholeWords(n) <==> n % 4 == 0
    decreases n
  {
    if n >= 4 {
      WholeWordsIsDivisible(n - 4);
    }
  }

  /** Which field values decode: `xattrvalues` never does, a `d-ng` value
      needs a colon, a `d-ngv2` value two, an `xattrlengths` value a whole
      number of uint32s; every other kind takes any bytes. */
  predicate Decodable(f: Field, fv: bytes)
  {
    if f == XattrValues then false
    else if f == DNg then COLON in fv
    else if f == DNgV2 then Count(fv, COLON) >= 2
    else if f == XattrLengths then WholeWords(|fv|)
    else true
  }

  /** The field kinds whose value needs no splitting or nested reads. */
  predicate IsPlain(f: Field)
  {
    !(f.DNg? || f.DNgV2? || f.XattrLengths? || f.XattrValues?)
  }

  /** A plain field: its bytes kept as they are, or read as one integer
      (`iuid`, `igid`, `imode`, of any width), or split at every `|`
      (`xattrnames`). */
  function PlainField(f: Field, fv: bytes, order: ByteOrder): (v: FieldValue)
    requires IsPlain(f)
    ensures v.Tag() == f
  {
    match f
    case D => DigestValue(fv)
    case N => NameValue(fv)
    case DModSig => ModSigDigestValue(fv)
    case NNg => NameNgValue(fv)
    case Sig => SigValue(fv)
    case ModSig => ModSigValue(fv)
    case Buf => BufValue(fv)
    case EvmSig => EvmSigValue(fv)
    case Iuid => IuidValue(FromBytes(fv, order))
    case Igid => IgidValue(FromBytes(fv, order))
    case IMode => IModeValue(FromBytes(fv, order))
    case XattrNames => XattrNamesValue(SplitAll(fv, PIPE))
  }

  /** What a plain field holds: the eight byte-string kinds keep the value
      exactly as read; `iuid`, `igid` and `imode` hold it read as an integer
      in the parser's byte order, below 256 to the power of its width;
      `xattrnames` holds one more name than the value has pipes, none of
      them containing a pipe, and they join back to the value. */
  lemma PlainFieldValue(f: Field, fv: bytes, order: ByteOrder)
    requires IsPlain(f)
    ensures f in {D, N, DModSig, NNg, Sig, ModSig, Buf, EvmSig} ==>
              PlainField(f, fv, order)
              in {DigestValue(fv), NameValue(fv), ModSigDigestValue(fv), NameNgValue(fv),
                  SigValue(fv), ModSigValue(fv), BufValue(fv), EvmSigValue(fv)}
    ensures f in {Iuid, Igid, IMode} ==>
              var n := FromBytes(fv, order);
              n < Pow256(|fv|) && PlainField(f, fv, order) in {IuidValue(n), IgidValue(n), IModeValue(n)}
    ensures f == XattrNames ==>
              var names := PlainField(f, fv, order).names;
              && |names| == Count(fv, PIPE) + 1
              && Join(names, PIPE) == fv
              && forall k | 0 <= k < |names| :: PIPE !in names[k]
  {
    if f in {Iuid, Igid, IMode} {
      FromBytesBound(fv, order);
    } else if f == XattrNames {
      SplitAllParts(fv, PIPE);
    }
  }

  /** `parse_field`'s decoding of one field value `fv` of kind `f`. */
  function DecodeField(f: Field, fv: bytes, order: ByteOrder): (r: Result<FieldValue>)
    ensures r.Ok? <==> Decodable(f, fv)
    ensures r.Ok? ==> r.value.Tag() == f
  {
    if IsPlain(f) then Ok(PlainField(f, fv, order))
    else if f == DNg then DecodeDigestNg(fv)
    else if f == DNgV2 then DecodeDigestNgV2(fv)
    else if f == XattrLengths then WholeWordsIsDivisible(|fv|); DecodeXattrLengths(fv, order)
    else Err(NotImplemented)
  }

  /** Each kind of field is decoded by its own rule: plain kinds as
      `PlainField` gives, `d-ng` and `d-ngv2` by splitting at colons,
      `xattrlengths` as a run of uint32s. */
  lemma DecodeFieldByKind(f: Field, fv: bytes, order: ByteOrder)
    ensures IsPlain(f) ==> DecodeField(f, fv, order) == Ok(PlainField(f, fv, order))
    ensures f == DNg ==> DecodeField(f, fv, order) == DecodeDigestNg(fv)
    ensures f == DNgV2 ==> DecodeField(f, fv, order) == DecodeDigestNgV2(fv)
    ensures f == XattrLengths ==> DecodeField(f, fv, order) == DecodeXattrLengths(fv, order)
  {
  }

  /** `xattrvalues` has no decoder: whatever its bytes, it fails as not implemented. */
  lemma XattrValuesNotImplemented(fv: bytes, order: ByteOrder)
    ensures DecodeField(XattrValues, fv, order) == Err(NotImplemented)
  {
  }

  // -------------------------------------------------------------- the cursor

  /** `get_bytes(size)` */
  function GetBytes(data: bytes, off: nat, size: nat): (r: Step<bytes>)
    requires off <= |data|
    ensures r.Ok? <==> size <= |data| - off
    ensures r.Err? ==> r.error == ShortBuffer(off, size, |data| - off)
    ensures r.Ok? ==> r.value.1 == off + size && r.value.0 == data[off..off + size]
  {
    if size > |data| - off then Err(ShortBuffer(off, size, |data| - off))
    else Ok((data[off..off + size], off + size))
  }

  /** `get_uint32()` */
  function GetUint32(data: bytes, off: nat, order: ByteOrder): (r: Step<nat>)
    requires off <= |data|
    ensures r.Ok? <==> off + 4 <= |data|
    ensures r.Err? ==> r.error == ShortBuffer(off, 4, |data| - off)
    ensures r.Ok? ==> r.value.1 == off + 4 && r.value.0 == FromBytes(data[off..off + 4], order)
  {
    var (b, next) :- GetBytes(data, off, 4);
    Ok((FromBytes(b, order), next))
  }

  /** `get_len_bytes()`: a uint32 length, then exactly that many bytes. */
  function GetLenBytes(data: bytes, off: nat, order: ByteOrder): (r: Step<bytes>)
    requires off <= |data|
    ensures r.Ok? <==> off + 4 <= |data| && FromBytes(data[off..off + 4], order) <= |data| - off - 4
    ensures off + 4 > |data| ==> r == Err(ShortBuffer(off, 4, |data| - off))
    ensures off + 4 <= |data| && FromBytes(data[off..off + 4], order) > |data| - off - 4
            ==> r == Err(ShortBuffer(off + 4, FromBytes(data[off..off + 4], order), |data| - off - 4))
    ensures r.Ok? ==> var n := FromBytes(data[off..off + 4], order);
                      off + 4 + n <= |data| && r.value.1 == off + 4 + n && r.value.0 == data[off + 4..off + 4 + n]
  {
    var (cl, o) :- GetUint32(data, off, order);
    GetBytes(data, o, cl)
  }

  /** `parse_field(field_type)` */
  function ParseField(data: bytes, off: nat, order: ByteOrder, f: Field): (r: Step<FieldValue>)
    requires off <= |data|
    ensures r.Ok? <==> var l := GetLenBytes(data, off, order); l.Ok? && Decodable(f, l.value.0)
    ensures r.Ok? ==> r.value.0.Tag() == f && off + 4 <= r.value.1 <= |data|
  {
    var (fv, next) :- GetLenBytes(data, off, order);
    var value :- DecodeField(f, fv, order);
    Ok((value, next))
  }

  /** A field is its length-prefixed bytes decoded by the decoder of its
      kind and ends right after those bytes; a failing read or decode is
      the field's error. */
  lemma ParseFieldValue(data: bytes, off: nat, order: ByteOrder, f: Field)
    requires off <= |data|
    ensures var r := ParseField(data, off, order, f);
            var l := GetLenBytes(data, off, order);
            && (r.Ok? ==> r.value == (DecodeField(f, l.value.0, order).value, off + 4 + |l.value.0|))
            && (l.Err? ==> r == Err(l.error))
            && (l.Ok? && r.Err? ==> r == Err(DecodeField(f, l.value.0, order).error))
  {
  }

  /** `parse_fields(field_types)`: one field per kind, in order. */
  function ParseFields(data: bytes, off: nat, order: ByteOrder, kinds: seq<Field>): (r: Step<seq<FieldValue>>)
    requires off <= |data|
    decreases |kinds|
    ensures r.Ok? ==> off <= r.value.1 <= |data|
    ensures r.Ok? ==> |r.value.0| == |kinds|
  {
    if |kinds| == 0 then Ok(([], off))
    else
      var (value, o) :- ParseField(data, off, order, kinds[0]);
      var (rest, next) :- ParseFields(data, o, order, kinds[1..]);
      assert kinds == [kinds[0]] + kinds[1..];
      Ok(([value] + rest, next))
  }

  /** Where field `i` of a successful `parse_fields` run starts: the first
      at `off`, each later one where the one before it ended. */
  function FieldStart(data: bytes, off: nat, order: ByteOrder, kinds: seq<Field>, i: nat): (p: nat)
    requires off <= |data| && i <= |kinds| && ParseFields(data, off, order, kinds).Ok?
    ensures off <= p <= |data|
    decreases i
  {
    if i == 0 then off
    else FieldStart(data, ParseField(data, off, order, kinds[0]).value.1, order, kinds[1..], i - 1)
  }

  /** Field `i` of a successful run is the field `parse_field` reads at its
      start, and it ends where field `i + 1` starts; the run ends where a
      field after the last would start. */
  lemma {:induction false} ParseFieldsEntry(data: bytes, off: nat, order: ByteOrder, kinds: seq<Field>, i: nat)
    requires off <= |data|
    ensures ParseFields(data, off, order, kinds).Ok? && i < |kinds| ==>
              ParseField(data, FieldStart(data, off, order, kinds, i), order, kinds[i])
              == Ok((ParseFields(data, off, order, kinds).value.0[i], FieldStart(data, off, order, kinds, i + 1)))
    decreases i
  {
    if ParseFields(data, off, order, kinds).Ok? && i > 0 && i < |kinds| {
      var f := ParseField(data, off, order, kinds[0]).value;
      ParseFieldsEntry(data, f.1, order, kinds[1..], i - 1);
    }
  }

  /** A successful `parse_fields` run ends where a field after the last would start. */
  lemma {:induction false} ParseFieldsEnd(data: bytes, off: nat, order: ByteOrder, kinds: seq<Field>)
    requires off <= |data| && ParseFields(data, off, order, kinds).Ok?
    ensures ParseFields(data, off, order, kinds).value.1 == FieldStart(data, off, order, kinds, |kinds|)
    decreases |kinds|
  {
    if |kinds| > 0 {
      var field := ParseField(data, off, order, kinds[0]);
      assert field.Ok?;
      var next := field.value.1;
      var rest := ParseFields(data, next, order, kinds[1..]);
      assert rest.Ok? && ParseFields(data, off, order, kinds).value.1 == rest.value.1;
      ParseFieldsEnd(data, next, order, kinds[1..]);
      assert FieldStart(data, off, order, kinds, |kinds|) == FieldStart(data, next, order, kinds[1..], |kinds| - 1);
    }
  }

  /** A successful run holds one field of each kind, in the order of the
      kinds, and so never meets `xattrvalues`, which has no decoder. */
  lemma ParseFieldsTags(data: bytes, off: nat, order: ByteOrder, kinds: seq<Field>)
    requires off <= |data| && ParseFields(data, off, order, kinds).Ok?
    ensures forall i | 0 <= i < |kinds| :: ParseFields(data, off, order, kinds).value.0[i].Tag() == kinds[i]
    ensures XattrValues !in kinds
  {
    forall i | 0 <= i < |kinds|
      ensures ParseFields(data, off, order, kinds).value.0[i].Tag() == kinds[i]
      ensures kinds[i] != XattrValues
    {
      ParseFieldsEntry(data, off, order, kinds, i);
    }
  }

  /** Fields already parsed, put in front of what a remaining step yields. */
  function Prepend(done: seq<FieldValue>, r: Step<seq<FieldValue>>): (q: Step<seq<FieldValue>>)
    ensures q.Ok? <==> r.Ok?
    ensures r.Err? ==> q == r
    ensures r.Ok? ==> q.value == (done + r.value.0, r.value.1)
    ensures done == [] ==> q == r
  {
    match r
    case Ok((rest, next)) => assert [] + rest == rest; Ok((done + rest, next))
    case Err(e) => Err(e)
  }

  /** The unfolding of `ParseFields` for a non-empty list of kinds. */
  lemma ParseFieldsCons(data: bytes, off: nat, order: ByteOrder, kinds: seq<Field>)
    requires off <= |data| && |kinds| > 0
    ensures var f := ParseField(data, off, order, kinds[0]);
            ParseFields(data, off, order, kinds)
            == if f.Err? then Err(f.error)
               else var rest := ParseFields(data, f.value.1, order, kinds[1..]);
                    if rest.Err? then Err(rest.error) else Ok(([f.value.0] + rest.value.0, rest.value.1))
  {
  }

  /** One turn of the `parse_fields` loop: a failing field fails the whole
      run with its error; otherwise its value joins the fields already done. */
  lemma PrependStep(data: bytes, off: nat, order: ByteOrder, kinds: seq<Field>, done: seq<FieldValue>)
    requires off <= |data| && |kinds| > 0
    ensures var f := ParseField(data, off, order, kinds[0]);
            (f.Err? ==> Prepend(done, ParseFields(data, off, order, kinds)) == Err(f.error))
            && (f.Ok? ==> Prepend(done, ParseFields(data, off, order, kinds))
                          == Prepend(done + [f.value.0], ParseFields(data, f.value.1, order, kinds[1..])))
  {
    ParseFieldsCons(data, off, order, kinds);
    var f := ParseField(data, off, order, kinds[0]);
    if f.Ok? {
      var rest := ParseFields(data, f.value.1, order, kinds[1..]);
      if rest.Ok? {
        assert done + ([f.value.0] + rest.value.0) == (done + [f.value.0]) + rest.value.0;
      }
    }
  }

  /** `parse_event()`: pcr, sha1 digest, descriptor name, then the template
      data decoded as the descriptor's fields by a fresh sub-parser. Neither
      the template data nor the record is checked for left-over bytes. */
  function ParseEvent(data: bytes, off: nat, order: ByteOrder): (r: Step<Event>)
    requires off <= |data|
    ensures r.Ok? ==> off + 24 <= |data|
    ensures r.Ok? ==> r.value.0.pcr == FromBytes(data[off..off + 4], order)
    ensures r.Ok? ==> r.value.0.digests == map[Sha1 := data[off + 4..off + 24]]
    ensures r.Ok? ==> off < r.value.1 <= |data|
  {
    var (pcr, o1) :- GetUint32(data, off, order);
    var (dig, o2) :- GetBytes(data, o1, 20);
    var (descriptor, o3) :- GetLenBytes(data, o2, order);
    var kinds :- Expand(descriptor);
    var (sub, o4) :- GetLenBytes(data, o3, order);
    var (fields, _) :- ParseFields(sub, 0, order, kinds);
    Ok((Event(pcr, fields, map[Sha1 := dig]), o4))
  }

  /** An event's fields are the template data decoded as the fields its
      descriptor expands to, one per entry, and the event ends with the
      template data; so the descriptor is never `evm-sig`, whose fields end
      with the undecodable `xattrvalues`. */
  lemma ParseEventValue(data: bytes, off: nat, order: ByteOrder)
    requires off <= |data| && ParseEvent(data, off, order).Ok?
    ensures var r := ParseEvent(data, off, order);
            var name := GetLenBytes(data, off + 24, order);
            && name.Ok? && Expand(name.value.0).Ok?
            && var template := GetLenBytes(data, name.value.1, order);
            && template.Ok? && r.value.1 == template.value.1
            && ParseFields(template.value.0, 0, order, Expand(name.value.0).value).Ok?
            && r.value.0.fields == ParseFields(template.value.0, 0, order, Expand(name.value.0).value).value.0
            && |r.value.0.fields| == |Expand(name.value.0).value|
            && name.value.0 != EVM_SIG
  {
    var name := GetLenBytes(data, off + 24, order).value;
    var template := GetLenBytes(data, name.1, order).value;
    ParseFieldsTags(template.0, 0, order, Expand(name.0).value);
  }

  /** A record decodes exactly when every step of `parse_event` does: the
      24 fixed bytes, the descriptor name, its expansion, the template data
      and its fields; otherwise the first step that fails gives the error. */
  lemma ParseEventOutcome(data: bytes, off: nat, order: ByteOrder)
    requires off <= |data|
    ensures var r := ParseEvent(data, off, order);
            r.Ok? <==> off + 24 <= |data| && var name := GetLenBytes(data, off + 24, order);
                       && name.Ok? && Expand(name.value.0).Ok?
                       && var template := GetLenBytes(data, name.value.1, order);
                       && template.Ok? && ParseFields(template.value.0, 0, order, Expand(name.value.0).value).Ok?
    ensures off + 4 > |data| ==> ParseEvent(data, off, order) == Err(ShortBuffer(off, 4, |data| - off))
    ensures off + 4 <= |data| < off + 24 ==> ParseEvent(data, off, order) == Err(ShortBuffer(off + 4, 20, |data| - off - 4))
    ensures off + 24 <= |data| ==>
              var name := GetLenBytes(data, off + 24, order);
              && (name.Err? ==> ParseEvent(data, off, order) == Err(name.error))
              && (name.Ok? && Expand(name.value.0).Err? ==> ParseEvent(data, off, order) == Err(Expand(name.value.0).error))
    ensures off + 24 <= |data| ==>
              var name := GetLenBytes(data, off + 24, order);
              name.Ok? && Expand(name.value.0).Ok? ==>
                var template := GetLenBytes(data, name.value.1, order);
                && (template.Err? ==> ParseEvent(data, off, order) == Err(template.error))
                && (template.Ok? && ParseFields(template.value.0, 0, order, Expand(name.value.0).value).Err?
                    ==> ParseEvent(data, off, order)
                        == Err(ParseFields(template.value.0, 0, order, Expand(name.value.0).value).error))
  {
  }

  // -------------------------------------------------------------- examples

  /** A `d-ng` digest may itself contain colons: only the first one splits. */
  lemma DigestNgFirstColonExample()
    ensures DecodeDigestNg([1, COLON, 2, COLON, 3]) == Ok(DigestNgValue([1], [2, COLON, 3]))
  {
    var s: bytes := [1, COLON, 2, COLON, 3];
    assert s[1..] == [COLON, 2, COLON, 3] && s[1..][1..] == [2, COLON, 3];
    SplitNUnsplit([2, COLON, 3], COLON);
    assert SplitN(s[1..], COLON, 1) == [[], [2, COLON, 3]];
    assert SplitN(s, COLON, 1) == [[1] + []] + [[2, COLON, 3]];
    assert [1] + [] == [1];
    assert SplitN(s, COLON, 1) == [[1], [2, COLON, 3]];
  }

  /** With no splits left the value stays one part. */
  lemma {:induction false} SplitNUnsplit(s: bytes, sep: byte)
    ensures SplitN(s, sep, 0) == [s]
    decreases |s|
  {
    if |s| > 0 {
      SplitNUnsplit(s[1..], sep);
      assert s == [s[0]] + s[1..];
    }
  }

  /** `xattrnames` values split at every pipe; an empty value is one empty name. */
  lemma XattrNamesExample()
    ensures SplitAll([7, PIPE, 8], PIPE) == [[7], [8]]
    ensures SplitAll([], PIPE) == [[]]
  {
    var s: bytes := [7, PIPE, 8];
    assert s[1..] == [PIPE, 8] && s[1..][1..] == [8] && s[1..][1..][1..] == [];
    assert [8] + [] == [8] && [7] + [] == [7];
    assert SplitAll([8], PIPE) == [[8] + []] + [];
    assert SplitAll([8], PIPE) == [[8]];
    assert SplitAll(s[1..], PIPE) == [[]] + SplitAll([8], PIPE);
    assert SplitAll(s[1..], PIPE) == [[], [8]];
    assert SplitAll(s, PIPE) == [[7] + []] + [[8]];
  }
}
