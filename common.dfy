/** Vocabulary shared by the three event-log decoders: bytes, the structured
    decode errors, a failure-compatible Result, unsigned integers in either
    byte order, and the TPM digest-algorithm codes. */
module Common {

  type byte = x: int | 0 <= x < 256
  type bytes = seq<byte>

  /** A GUID, kept as its 16 raw bytes in the on-disk (mixed-endian, `bytes_le`) order. */
  type Guid = bytes

  /** The digest algorithms of the TCG Algorithm Registry that the logs may carry. */
  datatype DigestAlgorithm = Sha1 | Sha256 | Sha384 | Sha512 | Sm3_256

  /** Why a decode failed. Each constructor stands for one kind of raise site. */
  datatype Error =
    // a read asked for more bytes than remain (every `size > left` check)
    | ShortBuffer(offset: nat, requested: nat, left: nat)
    // a UEFI read was asked for a negative number of bytes
    | NegativeSize(size: int)
    // a bounded scope ended with bytes left over
    | NotConsumed(left: nat)
    // a discriminator outside its allowed set, the set in declaration order
    | UnexpectedType(got: int, expected: seq<int>)
    // an IMA template descriptor name outside the descriptor table
    | UnknownDescriptor(name: bytes, names: seq<bytes>)
    // a CEL integer wider than its field allows
    | ValueTooLarge(requested: nat, maximum: nat)
    // CEL digest entries that overran their container
    | DigestsLengthMismatch(remaining: int)
    // a UEFI digest whose algorithm the Spec ID header did not declare
    | MissingAlgorithm(algorithm: DigestAlgorithm)
    // an IMA field value that did not split into the expected number of parts
    | UnpackMismatch(wanted: nat, found: nat)
    // the IMA `xattrvalues` field, which has no decoder
    | NotImplemented
    // a UEFI integer-width code other than 1 or 2
    | UnsupportedUintn(code: int)

  datatype Result<+T> = Ok(value: T) | Err(error: Error) {
    predicate IsFailure() { Err? }
    function PropagateFailure<U>(): Result<U> requires Err? { Err(error) }
    function Extract(): T requires Ok? { value }
  }

  /** A decoder step over a buffer: the value read and the offset after it. */
  type Step<T> = Result<(T, nat)>

  /** A parser method's outcome `r`, with its offset afterwards, agrees with the
      step that specifies it: same value and same new offset, or the same error. */
  predicate Tracks<T(==)>(r: Result<T>, offset: nat, s: Step<T>)
  {
    match s
    case Ok((v, next)) => r == Ok(v) && offset == next
    case Err(e) => r == Err(e)
  }

  // ---------------------------------------------------------------- integers

  function Pow256(n: nat): (p: nat)
    ensures p >= 1
  {
    if n == 0 then 1 else 256 * Pow256(n - 1)
  }

  /** `int.from_bytes(b, byteorder="big")` */
  function BigEndian(b: bytes): nat
  {
    if |b| == 0 then 0 else BigEndian(b[..|b| - 1]) * 256 + b[|b| - 1]
  }

  /** `int.from_bytes(b, byteorder="little")` */
  function LittleEndian(b: bytes): nat
  {
    if |b| == 0 then 0 else b[0] + 256 * LittleEndian(b[1..])
  }

  datatype ByteOrder = Little | Big

  function FromBytes(b: bytes, order: ByteOrder): nat
  {
    match order
    case Little => LittleEndian(b)
    case Big => BigEndian(b)
  }

  function Reverse(b: bytes): (r: bytes)
    ensures |r| == |b|
  {
    if |b| == 0 then [] else Reverse(b[1..]) + [b[0]]
  }

  /** An n-byte big-endian field holds less than 256^n. */
  lemma {:induction false} BigEndianBound(b: bytes)
    ensures BigEndian(b) < Pow256(|b|)
  {
    if |b| > 0 {
      BigEndianBound(b[..|b| - 1]);
      assert Pow256(|b|) == 256 * Pow256(|b| - 1);
    }
  }

  /** An n-byte little-endian field holds less than 256^n. */
  lemma {:induction false} LittleEndianBound(b: bytes)
    ensures LittleEndian(b) < Pow256(|b|)
  {
    if |b| > 0 {
      LittleEndianBound(b[1..]);
      assert Pow256(|b|) == 256 * Pow256(|b| - 1);
    }
  }

  lemma {:induction false} FromBytesBound(b: bytes, order: ByteOrder)
    ensures FromBytes(b, order) < Pow256(|b|)
  {
    match order
    case Little => LittleEndianBound(b);
    case Big => BigEndianBound(b);
  }

  /** The two byte orders are mirror images: reading little-endian is reading
      the reversed bytes big-endian. */
  lemma {:induction false} LittleEndianIsReversedBigEndian(b: bytes)
    ensures LittleEndian(b) == BigEndian(Reverse(b))
  {
    if |b| > 0 {
      var r := Reverse(b);
      assert r == Reverse(b[1..]) + [b[0]];
      assert r[..|r| - 1] == Reverse(b[1..]);
      LittleEndianIsReversedBigEndian(b[1..]);
    }
  }

  /** A 4-byte big-endian field, written out. */
  lemma BigEndian4(b: bytes)
    requires |b| == 4
    ensures BigEndian(b) == ((b[0] as int * 256 + b[1]) * 256 + b[2]) * 256 + b[3]
  {
    assert b[..3][..2] == b[..2];
    assert b[..2][..1] == b[..1];
    assert BigEndian(b[..1]) == b[0];
    assert BigEndian(b[..2]) == b[0] as int * 256 + b[1];
    assert BigEndian(b[..3]) == (b[0] as int * 256 + b[1]) * 256 + b[2];
  }

  /** A 2- or 4-byte little-endian field (UINT16, UINT32), written out. */
  lemma LittleEndian2(b: bytes)
    requires |b| == 2
    ensures LittleEndian(b) == b[0] as int + 256 * (b[1] as int)
  {
    assert LittleEndian(b[1..]) == b[1];
  }

  lemma LittleEndian4(b: bytes)
    requires |b| == 4
    ensures LittleEndian(b) == b[0] as int + 256 * (b[1] as int + 256 * (b[2] as int + 256 * (b[3] as int)))
  {
    assert b[1..][1..] == b[2..];
    assert b[2..][1..] == b[3..];
    assert LittleEndian(b[3..]) == b[3];
    assert LittleEndian(b[2..]) == b[2] as int + 256 * (b[3] as int);
  }

  // ------------------------------------------------------------ keyed updates

  /** The keys a sequence of (key, value) assignments names. */
  ghost function KeysOf<K, V>(pairs: seq<(K, V)>): set<K>
  {
    if |pairs| == 0 then {} else {pairs[0].0} + KeysOf(pairs[1..])
  }

  /** `m` is `base` after the assignments `d[k] = v` of `pairs`, in order:
      its keys are the base's and the pairs', a key takes the value of its
      last pair (no later pair names it), and a key no pair names keeps its
      base value. */
  ghost predicate AppliedInOrder<K, V>(m: map<K, V>, base: map<K, V>, pairs: seq<(K, V)>)
  {
    && m.Keys == base.Keys + KeysOf(pairs)
    && (forall i | 0 <= i < |pairs| && pairs[i].0 !in KeysOf(pairs[i + 1..]) ::
          pairs[i].0 in m && m[pairs[i].0] == pairs[i].1)
    && (forall k | k in base && k !in KeysOf(pairs) :: k in m && m[k] == base[k])
  }

  /** The assignments `d[k] = v` of `pairs`, done in order on `base`. */
  ghost function Apply<K, V>(base: map<K, V>, pairs: seq<(K, V)>): map<K, V>
    decreases |pairs|
  {
    if |pairs| == 0 then base else Apply(base[pairs[0].0 := pairs[0].1], pairs[1..])
  }

  /** Applying a first assignment and then the rest. */
  lemma ApplyFirst<K, V>(base: map<K, V>, p: (K, V), pairs: seq<(K, V)>)
    ensures Apply(base, [p] + pairs) == Apply(base[p.0 := p.1], pairs)
  {
    assert ([p] + pairs)[1..] == pairs;
  }

  /** Applying assignments in order is last-wins: the keys are the base's and
      the pairs', each named key holds its last pair's value, and the other
      keys keep their base values. */
  lemma {:induction false} ApplyIsLastWins<K, V>(base: map<K, V>, pairs: seq<(K, V)>)
    ensures AppliedInOrder(Apply(base, pairs), base, pairs)
    decreases |pairs|
  {
    if |pairs| > 0 {
      var p := pairs[0];
      ApplyIsLastWins(base[p.0 := p.1], pairs[1..]);
      assert [p] + pairs[1..] == pairs;
      AppliedFirst(Apply(base, pairs), base, p, pairs[1..]);
    }
  }

  /** Doing the first assignment, then the rest, is doing them all. */
  lemma AppliedFirst<K, V>(m: map<K, V>, base: map<K, V>, p: (K, V), pairs: seq<(K, V)>)
    requires AppliedInOrder(m, base[p.0 := p.1], pairs)
    ensures AppliedInOrder(m, base, [p] + pairs)
  {
    var all := [p] + pairs;
    assert all[1..] == pairs;
    assert KeysOf(all) == {p.0} + KeysOf(pairs);
    forall i | 0 <= i < |all| && all[i].0 !in KeysOf(all[i + 1..])
      ensures all[i].0 in m && m[all[i].0] == all[i].1
    {
      if i > 0 {
        assert all[i] == pairs[i - 1];
        assert all[i + 1..] == pairs[i..];
      }
    }
  }

  // ------------------------------------------------- reading to the end

  /** `step` can be run at every offset of `data` and, where it succeeds,
      moves at least `min` bytes forward without leaving the buffer. */
  ghost predicate Advances<T>(step: (bytes, nat) --> Step<T>, data: bytes, min: nat)
  {
    forall o: nat | o <= |data| ::
      step.requires(data, o) && (step(data, o).Ok? ==> o + min <= step(data, o).value.1 <= |data|)
  }

  /** Entries read by `step`, one after another, while bytes remain (the
      `while parser.left:` loops), appended to `acc`. */
  function Fill<T>(step: (bytes, nat) --> Step<T>, min: nat, data: bytes, off: nat, acc: seq<T>): (r: Step<seq<T>>)
    requires 0 < min && off <= |data| && Advances(step, data, min)
    ensures r.Ok? ==> r.value.1 == |data|
    ensures r.Ok? ==> |acc| <= |r.value.0| && r.value.0[..|acc|] == acc
    ensures r.Ok? ==> min * (|r.value.0| - |acc|) <= |data| - off
    decreases |data| - off
  {
    if off == |data| then Ok((acc, off))
    else
      var (entry, next) :- step(data, off);
      Fill(step, min, data, next, acc + [entry])
  }

  /** Where entry `i` of a successful `Fill` from `off` starts: the first at
      `off`, each later one where the one before it ended. */
  ghost function FillStart<T>(step: (bytes, nat) --> Step<T>, min: nat, data: bytes, off: nat, acc: seq<T>, i: nat): (p: nat)
    requires 0 < min && off <= |data| && Advances(step, data, min)
    requires Fill(step, min, data, off, acc).Ok?
    requires i <= |Fill(step, min, data, off, acc).value.0| - |acc|
    ensures off <= p <= |data|
    decreases i
  {
    if i == 0 then off
    else
      var (entry, next) := step(data, off).value;
      FillStart(step, min, data, next, acc + [entry], i - 1)
  }

  /** Entry `i` of a successful `Fill` is what `step` reads at its start,
      and it ends where entry `i + 1` starts. */
  lemma {:induction false} FillEntry<T>(step: (bytes, nat) --> Step<T>, min: nat, data: bytes, off: nat, acc: seq<T>, i: nat)
    requires 0 < min && off <= |data| && Advances(step, data, min)
    requires Fill(step, min, data, off, acc).Ok?
    requires i < |Fill(step, min, data, off, acc).value.0| - |acc|
    ensures step(data, FillStart(step, min, data, off, acc, i))
            == Ok((Fill(step, min, data, off, acc).value.0[|acc| + i], FillStart(step, min, data, off, acc, i + 1)))
    decreases i
  {
    var (entry, next) := step(data, off).value;
    var r := Fill(step, min, data, off, acc);
    var r' := Fill(step, min, data, next, acc + [entry]);
    assert r == r';
    if i > 0 {
      FillEntry(step, min, data, next, acc + [entry], i - 1);
      assert r.value.0[|acc| + i] == r'.value.0[|acc + [entry]| + (i - 1)];
    } else {
      assert r.value.0[|acc|] == r'.value.0[..|acc| + 1][|acc|];
    }
  }

  /** A successful `Fill` ends at the end of the buffer, where an entry after
      the last would start. */
  lemma {:induction false} FillEnd<T>(step: (bytes, nat) --> Step<T>, min: nat, data: bytes, off: nat, acc: seq<T>)
    requires 0 < min && off <= |data| && Advances(step, data, min)
    requires Fill(step, min, data, off, acc).Ok?
    ensures FillStart(step, min, data, off, acc, |Fill(step, min, data, off, acc).value.0| - |acc|) == |data|
    decreases |data| - off
  {
    var r := Fill(step, min, data, off, acc);
    if off < |data| {
      var (entry, next) := step(data, off).value;
      assert r == Fill(step, min, data, next, acc + [entry]);
      FillEnd(step, min, data, next, acc + [entry]);
      assert |r.value.0| - |acc| == (|r.value.0| - |acc + [entry]|) + 1;
    }
  }

  /** The entries of a successful `Fill` from `off` with nothing before
      them tile the rest of the buffer: entry `i` is what `step` reads at
      `FillStart(.., i)` and ends where entry `i + 1` starts, and the last
      ends at the end of the buffer. */
  lemma FillTiles<T>(step: (bytes, nat) --> Step<T>, min: nat, data: bytes, off: nat)
    requires 0 < min && off <= |data| && Advances(step, data, min)
    requires Fill(step, min, data, off, []).Ok?
    ensures var entries := Fill(step, min, data, off, []).value.0;
            && (forall i | 0 <= i < |entries| ::
                  step(data, FillStart(step, min, data, off, [], i))
                  == Ok((entries[i], FillStart(step, min, data, off, [], i + 1))))
            && FillStart(step, min, data, off, [], |entries|) == |data|
  {
    var entries := Fill(step, min, data, off, []).value.0;
    forall i | 0 <= i < |entries|
      ensures step(data, FillStart(step, min, data, off, [], i))
              == Ok((entries[i], FillStart(step, min, data, off, [], i + 1)))
    {
      FillEntry(step, min, data, off, [], i);
    }
    FillEnd(step, min, data, off, []);
  }

  /** `entries` are read back to back from `off` to the end of the buffer:
      entry `i` is what `step` reads at `starts[i]` and ends at
      `starts[i + 1]`; the first starts at `off`, the last ends at `|data|`. */
  ghost predicate Tiling<T>(step: (bytes, nat) --> Step<T>, data: bytes, off: nat, starts: seq<nat>, entries: seq<T>)
  {
    && |starts| == |entries| + 1 && starts[0] == off && starts[|entries|] == |data|
    && forall i | 0 <= i < |entries| ::
         starts[i] <= |data| && step.requires(data, starts[i]) && step(data, starts[i]) == Ok((entries[i], starts[i + 1]))
  }

  /** The converse of `FillTiles`: entries that tile the rest of the buffer
      are exactly what `Fill` reads, after what it had already read. */
  lemma {:induction false} FillOfTiling<T>(step: (bytes, nat) --> Step<T>, min: nat, data: bytes, off: nat, acc: seq<T>,
                                           starts: seq<nat>, entries: seq<T>)
    requires 0 < min && off <= |data| && Advances(step, data, min)
    requires Tiling(step, data, off, starts, entries)
    ensures Fill(step, min, data, off, acc) == Ok((acc + entries, |data|))
    decreases |entries|
  {
    if |entries| == 0 {
      assert acc + entries == acc;
    } else {
      assert step(data, off) == Ok((entries[0], starts[1]));
      assert off < |data|;
      assert Tiling(step, data, starts[1], starts[1..], entries[1..]) by {
        forall i | 0 <= i < |entries[1..]|
          ensures starts[1..][i] <= |data| && step.requires(data, starts[1..][i])
                  && step(data, starts[1..][i]) == Ok((entries[1..][i], starts[1..][i + 1]))
        {
          assert starts[1..][i] == starts[i + 1] && starts[1..][i + 1] == starts[i + 2];
          assert entries[1..][i] == entries[i + 1];
        }
      }
      FillOfTiling(step, min, data, starts[1], acc + [entries[0]], starts[1..], entries[1..]);
      assert acc + [entries[0]] + entries[1..] == acc + entries;
    }
  }

  /** `k * size` as repeated addition, so that proofs about fixed-size
      entries stay linear. */
  function Times(k: nat, size: nat): nat
  {
    if k == 0 then 0 else Times(k - 1, size) + size
  }

  lemma {:induction false} TimesIsProduct(k: nat, size: nat)
    ensures Times(k, size) == k * size
  {
    if k > 0 {
      TimesIsProduct(k - 1, size);
      assert k * size == (k - 1) * size + size;
    }
  }

  /** `step` is defined at every offset of `data` and, where it succeeds,
      reads exactly `size` bytes, with `size` positive. */
  ghost predicate Strides<T>(step: (bytes, nat) --> Step<T>, data: bytes, size: nat)
  {
    forall o: nat | o <= |data| ::
      step.requires(data, o) && (step(data, o).Ok? ==> 0 < size && step(data, o).value.1 == o + size <= |data|)
  }

  /** Entries of `size` bytes read by `step` while a remaining length `left`
      is nonzero, each reducing it by `size` (a `while left != 0:` loop),
      appended to `acc`. */
  function Stride<T>(step: (bytes, nat) --> Step<T>, size: nat, data: bytes, off: nat, left: int,
                     acc: seq<T>): (r: Step<seq<T>>)
    requires off <= |data| && Strides(step, data, size)
    ensures r.Ok? ==> |acc| <= |r.value.0| && r.value.0[..|acc|] == acc
    ensures r.Ok? ==> r.value.1 == off + left <= |data|
    decreases |data| - off
  {
    if left == 0 then Ok((acc, off))
    else
      var (entry, next) :- step(data, off);
      Stride(step, size, data, next, left - size, acc + [entry])
  }

  /** The length a successful `Stride` covers is its number of entries
      times the entry size. */
  lemma {:induction false} StrideCount<T>(step: (bytes, nat) --> Step<T>, size: nat, data: bytes, off: nat,
                                          left: int, acc: seq<T>)
    requires off <= |data| && Strides(step, data, size)
    requires Stride(step, size, data, off, left, acc).Ok?
    ensures left == Times(|Stride(step, size, data, off, left, acc).value.0| - |acc|, size)
    decreases |data| - off
  {
    if left != 0 {
      var (entry, next) := step(data, off).value;
      var r := Stride(step, size, data, off, left, acc);
      var r' := Stride(step, size, data, next, left - size, acc + [entry]);
      assert r == r';
      StrideCount(step, size, data, next, left - size, acc + [entry]);
      assert |r.value.0| - |acc| == (|r.value.0| - |acc + [entry]|) + 1;
    }
  }

  /** Entry `i` of a successful `Stride` is what `step` reads `i` entries
      after the start. */
  lemma {:induction false} StrideEntry<T>(step: (bytes, nat) --> Step<T>, size: nat, data: bytes, off: nat,
                                          left: int, acc: seq<T>, i: nat)
    requires off <= |data| && Strides(step, data, size)
    requires Stride(step, size, data, off, left, acc).Ok?
    requires i < |Stride(step, size, data, off, left, acc).value.0| - |acc|
    ensures off + Times(i + 1, size) <= |data|
    ensures step(data, off + Times(i, size))
            == Ok((Stride(step, size, data, off, left, acc).value.0[|acc| + i], off + Times(i + 1, size)))
    decreases i
  {
    var (entry, next) := step(data, off).value;
    var r := Stride(step, size, data, off, left, acc);
    var r' := Stride(step, size, data, next, left - size, acc + [entry]);
    assert r == r';
    if i > 0 {
      StrideEntry(step, size, data, next, left - size, acc + [entry], i - 1);
      assert r.value.0[|acc| + i] == r'.value.0[|acc + [entry]| + (i - 1)];
    } else {
      assert r.value.0[|acc|] == r'.value.0[..|acc| + 1][|acc|];
    }
  }

  /** A negative remaining length never reaches zero. */
  lemma {:induction false} StrideNegative<T>(step: (bytes, nat) --> Step<T>, size: nat, data: bytes, off: nat,
                                             left: int, acc: seq<T>)
    requires off <= |data| && Strides(step, data, size) && left < 0
    ensures Stride(step, size, data, off, left, acc).Err?
    decreases |data| - off
  {
    var e := step(data, off);
    if e.Ok? {
      StrideNegative(step, size, data, e.value.1, left - size, acc + [e.value.0]);
    }
  }

  // ------------------------------------------------------- digest algorithms

  /** TPM_ALG_ID codes in declaration order (`tuple(DigestAlgorithm)`). */
  const ALGORITHM_CODES: seq<int> := [4, 11, 12, 13, 18]

  /** The TPM_ALG_ID code of an algorithm. */
  function Code(a: DigestAlgorithm): (c: int)
    ensures c in ALGORITHM_CODES
  {
    match a
    case Sha1 => 4
    case Sha256 => 11
    case Sha384 => 12
    case Sha512 => 13
    case Sm3_256 => 18
  }

  /** `DigestAlgorithm(c)`: the algorithm with code `c`, or a value error. */
  function AlgorithmFromCode(c: int): (r: Result<DigestAlgorithm>)
    ensures r.Ok? <==> c in ALGORITHM_CODES
    ensures r.Err? ==> r.error == UnexpectedType(c, ALGORITHM_CODES)
    ensures forall a :: Code(a) == c ==> r == Ok(a)
  {
    match c
    case 4 => Ok(Sha1)
    case 11 => Ok(Sha256)
    case 12 => Ok(Sha384)
    case 13 => Ok(Sha512)
    case 18 => Ok(Sm3_256)
    case _ => Err(UnexpectedType(c, ALGORITHM_CODES))
  }

  /** Conversion from a code inverts `Code`, so distinct algorithms have distinct codes. */
  lemma CodeRoundTrip(a: DigestAlgorithm)
    ensures AlgorithmFromCode(Code(a)) == Ok(a)
  {
  }

  /** `str(a)`: an enum member renders as its member name. */
  function Name(a: DigestAlgorithm): (s: string)
    ensures s == "sha1" <==> a == Sha1
    ensures s == "sha256" <==> a == Sha256
    ensures s == "sha384" <==> a == Sha384
    ensures s == "sha512" <==> a == Sha512
    ensures s == "sm3_256" <==> a == Sm3_256
  {
    match a
    case Sha1 => "sha1"
    case Sha256 => "sha256"
    case Sha384 => "sha384"
    case Sha512 => "sha512"
    case Sm3_256 => "sm3_256"
  }

  /** Member names are distinct, so an error text names one algorithm. */
  lemma NameInjective(a: DigestAlgorithm, b: DigestAlgorithm)
    ensures Name(a) == Name(b) ==> a == b
  {
  }

  // ------------------------------------------------------------ text helpers

  /** The bytes of an ASCII string, one byte per character (a `b"..."` literal). */
  function Ascii(s: string): (b: bytes)
    requires forall i | 0 <= i < |s| :: s[i] as int < 128
    ensures |b| == |s|
    ensures forall i | 0 <= i < |s| :: b[i] == s[i] as int
  {
    seq(|s|, i requires 0 <= i < |s| => s[i] as int)
  }

  /** The UTF-16LE encoding of a string of Latin-1 characters (`s.encode("utf-16-le")`). */
  function Utf16Le(s: string): (b: bytes)
    requires forall i | 0 <= i < |s| :: s[i] as int < 256
    ensures |b| == 2 * |s|
    ensures forall i | 0 <= i < |s| :: b[2 * i] == s[i] as int && b[2 * i + 1] == 0
  {
    if |s| == 0 then [] else [s[0] as int, 0] + Utf16Le(s[1..])
  }
}
