/**
 * The value and type vocabulary of the processing core: primitive kinds,
 * sampled and event types, tagged scalar values and slot numbers.
 */
module Types {

  const U32_MODULUS: int := 0x1_0000_0000
  const U64_MODULUS: int := 0x1_0000_0000_0000_0000

  type u32 = x: int | 0 <= x < 0x1_0000_0000
  type u64 = x: int | 0 <= x < 0x1_0000_0000_0000_0000
  type i32 = x: int | -0x8000_0000 <= x < 0x8000_0000

  /** Wrapping reduction to u64, as `wrapping_add` does. */
  function WrapU64(x: int): u64
  {
    x % U64_MODULUS
  }

  /** How many wrapping increments lead from `from` to `to`. */
  function DistU64(from: u64, to: u64): nat
  {
    (to - from) % U64_MODULUS
  }

  /** The id reached from `start` after `k` wrapping increments. */
  function IdAfter(start: u64, k: nat): u64
  {
    WrapU64(start as int + k)
  }

  lemma {:induction false} DistOfWrap(start: u64, k: nat)
    ensures DistU64(start, IdAfter(start, k)) == k % U64_MODULUS
  {
  }

  lemma {:induction false} IdAfterStep(start: u64, k: nat)
    ensures IdAfter(IdAfter(start, k), 1) == IdAfter(start, k + 1)
  {
  }

  /** The slot number reached from `start` after `k` wrapping increments. */
  function NoAfter(start: u32, k: nat): u32
  {
    (start + k) % U32_MODULUS
  }

  /** How many wrapping increments lead from slot number `from` to `to`. */
  function DistU32(from: u32, to: u32): nat
  {
    (to - from) % U32_MODULUS
  }

  lemma {:induction false} DistOfNoAfter(start: u32, k: nat)
    ensures DistU32(start, NoAfter(start, k)) == k % U32_MODULUS
  {
  }

  /** A subset is no larger than its superset. */
  lemma {:induction false} CardSubset<T>(a: set<T>, b: set<T>)
    requires a <= b
    ensures |a| <= |b|
  {
    assert b == a + (b - a);
    assert a * (b - a) == {};
  }

  /** An abstract sample value: floats and complex numbers are not modelled. */
  type Sample = int

  /** The number of an input slot, a wrapper around a u32. */
  datatype InputNo = InputNo(n: u32)

  /** The number of an output slot, a wrapper around a u32. */
  datatype OutputNo = OutputNo(n: u32)

  function InputNoFromU32(n: u32): (no: InputNo)
    ensures InputNoToU32(no) == n
  {
    InputNo(n)
  }

  function InputNoToU32(no: InputNo): u32
  {
    no.n
  }

  function OutputNoFromU32(n: u32): (no: OutputNo)
    ensures OutputNoToU32(no) == n
  {
    OutputNo(n)
  }

  function OutputNoToU32(no: OutputNo): u32
  {
    no.n
  }

  /** The derived ordering of slot numbers: the ordering of the wrapped u32. */
  predicate InputNoLess(a: InputNo, b: InputNo)
  {
    a.n < b.n
  }

  predicate OutputNoLess(a: OutputNo, b: OutputNo)
  {
    a.n < b.n
  }

  /** Both conversions of slot numbers are mutually inverse and keep the order. */
  lemma {:induction false} SlotNoConversions(a: u32, b: u32, i: InputNo, o: OutputNo)
    ensures InputNoFromU32(InputNoToU32(i)) == i
    ensures OutputNoFromU32(OutputNoToU32(o)) == o
    ensures InputNoLess(InputNoFromU32(a), InputNoFromU32(b)) <==> a < b
    ensures OutputNoLess(OutputNoFromU32(a), OutputNoFromU32(b)) <==> a < b
  {
  }

  /** The four primitive kinds. */
  datatype PrimType = F32 | C32 | U32 | I32

  /** Every primitive kind, in declaration order. */
  const ALL_PRIM_TYPES: seq<PrimType> := [PrimType.F32, PrimType.C32, PrimType.U32, PrimType.I32]

  lemma {:induction false} AllPrimTypesEnumerated(p: PrimType)
    ensures p in ALL_PRIM_TYPES
    ensures |ALL_PRIM_TYPES| == 4
    ensures forall i, j | 0 <= i < j < |ALL_PRIM_TYPES| :: ALL_PRIM_TYPES[i] != ALL_PRIM_TYPES[j]
  {
  }

  /** A sampled type carries its Nyquist frequency; an event type does not. */
  datatype Type = Sampled(ty: PrimType, fNyq: u64) | Event(ty: PrimType)

  /** Type identity is structural: sample-rate mismatches are type errors. */
  lemma {:induction false} TypeEquality(a: Type, b: Type)
    ensures a.Sampled? && b.Sampled? ==> (a == b <==> a.ty == b.ty && a.fNyq == b.fNyq)
    ensures a.Sampled? && b.Event? ==> a != b
    ensures a.Event? && b.Event? ==> (a == b <==> a.ty == b.ty)
  {
  }

  /** A tagged scalar of one primitive kind (payloads abstracted). */
  datatype Value = F32(f: Sample) | C32(c: Sample) | U32(u: u32) | I32(i: i32)

  /** The primitive kind of a value: the same-named kind. */
  function ValueType(v: Value): (t: PrimType)
    ensures v.F32? <==> t == PrimType.F32
    ensures v.C32? <==> t == PrimType.C32
    ensures v.U32? <==> t == PrimType.U32
    ensures v.I32? <==> t == PrimType.I32
  {
    match v
    case F32(_) => PrimType.F32
    case C32(_) => PrimType.C32
    case U32(_) => PrimType.U32
    case I32(_) => PrimType.I32
  }

  /** The abstract sample a value contributes to a buffer. */
  function ValueSample(v: Value): Sample
  {
    match v
    case F32(x) => x
    case C32(x) => x
    case U32(x) => x
    case I32(x) => x
  }
}
