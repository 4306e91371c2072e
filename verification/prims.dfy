/**
 * Primitive elements: the descriptors (sine oscillator, constant) with their
 * declared slots, the construction of their processors, and the block
 * computation of the constant and of the stateless pure primitives
 * (multiply, add). A primitive computation that reaches an `unwrap_match!`
 * on a buffer of the wrong variant or kind panics, modelled as `None`.
 */
module Prims {
  import opened Types
  import opened Buffers
  import opened Wrappers

  /** A primitive descriptor, comparable by value. */
  datatype PrimElement = SineOscF32(fNyq: u64) | Constant(value: Value, fNyq: u64)

  /** The input slots a descriptor declares. */
  function InputTypes(p: PrimElement): (m: map<InputNo, Type>)
    ensures p.SineOscF32? ==> m.Keys == {InputNo(0)} && m[InputNo(0)] == Type.Sampled(PrimType.F32, p.fNyq)
    ensures p.Constant? ==> m == map[]
  {
    match p
    case SineOscF32(f) => map[InputNo(0) := Type.Sampled(PrimType.F32, f)]
    case Constant(_, _) => map[]
  }

  /** The output slots a descriptor declares: always exactly slot 0. */
  function OutputTypes(p: PrimElement): (m: map<OutputNo, Type>)
    ensures m.Keys == {OutputNo(0)}
    ensures p.SineOscF32? ==> m[OutputNo(0)] == Type.Sampled(PrimType.F32, p.fNyq)
    ensures p.Constant? ==> m[OutputNo(0)] == Type.Sampled(ValueType(p.value), p.fNyq)
  {
    match p
    case SineOscF32(f) => map[OutputNo(0) := Type.Sampled(PrimType.F32, f)]
    case Constant(v, f) => map[OutputNo(0) := Type.Sampled(ValueType(v), f)]
  }

  /** The oscillator's output type is its frequency input's type. */
  lemma {:induction false} SineOscSlotsAgree(f: u64)
    ensures InputTypes(SineOscF32(f))[InputNo(0)] == OutputTypes(SineOscF32(f))[OutputNo(0)]
  {
  }

  /**
   * The runtime state of a primitive: the oscillator's sample rate (its
   * floating-point phase is not modelled) or the constant's value.
   */
  datatype PrimProcessor = SineOscProc(fs: u64) | ConstantProc(value: Value)

  /** Builds the processor for a descriptor; the sample rate is twice the Nyquist frequency, wrapping at 2^64. */
  function MkPrimElementProcessor(p: PrimElement): (r: PrimProcessor)
    ensures p.Constant? <==> r.ConstantProc?
    ensures p.Constant? ==> r.value == p.value
    ensures p.SineOscF32? ==> r.fs == (2 * p.fNyq) % U64_MODULUS
  {
    match p
    case SineOscF32(f) => SineOscProc((2 * f) % U64_MODULUS)
    case Constant(v, _) => ConstantProc(v)
  }

  // ---------------------------------------------------------------------
  // Constant

  /** Output slot 0, when requested, becomes `sz` copies of the value. */
  function ConstantCompute(v: Value, output: map<OutputNo, Buffer>, input: map<InputNo, Buffer>, sz: nat)
    : (r: Option<map<OutputNo, Buffer>>)
    ensures r.None? <==> OutputNo(0) in output && !output[OutputNo(0)].SampledBuf?
    ensures OutputNo(0) !in output ==> r == Some(output)
    ensures r.Some? ==> r.value.Keys == output.Keys
    ensures r.Some? ==> forall k | k in output && k != OutputNo(0) :: r.value[k] == output[k]
    ensures r.Some? && OutputNo(0) in output ==>
      var y := r.value[OutputNo(0)];
      && SameShape(y, output[OutputNo(0)])
      && |y.samples| == sz
      && forall i | 0 <= i < sz :: y.samples[i] == ValueSample(v)
  {
    if OutputNo(0) !in output then Some(output)
    else
      var y := output[OutputNo(0)];
      if !y.SampledBuf? then None
      else
        var resized := UpdateSize(y, sz);
        Some(output[OutputNo(0) := SampledBuf(resized.ty, seq(sz, _ => ValueSample(v)))])
  }

  /** The constant ignores its inputs entirely. */
  lemma {:induction false} ConstantIgnoresInputs(v: Value, output: map<OutputNo, Buffer>, in1: map<InputNo, Buffer>, in2: map<InputNo, Buffer>, sz: nat)
    ensures ConstantCompute(v, output, in1, sz) == ConstantCompute(v, output, in2, sz)
  {
  }

  /**
   * Given an output buffer of the constant's declared output type, the
   * constant computes a buffer that still has that type and holds `sz`
   * copies of the value; the value's type is the declared sample type.
   */
  lemma {:induction false} ConstantKeepsOutputType(v: Value, f: u64, output: map<OutputNo, Buffer>,
                                                   input: map<InputNo, Buffer>, sz: nat)
    requires OutputNo(0) in output && TestType(output[OutputNo(0)], OutputTypes(Constant(v, f))[OutputNo(0)])
    ensures ConstantCompute(v, output, input, sz).Some?
    ensures var y := ConstantCompute(v, output, input, sz).value[OutputNo(0)];
      && TestType(y, OutputTypes(Constant(v, f))[OutputNo(0)])
      && y.SampledBuf? && y.ty == ValueType(v) && |y.samples| == sz
      && forall i | 0 <= i < sz :: y.samples[i] == ValueSample(v)
  {
  }

  /** The block computation of a sine oscillator of sample rate `fs`; its floating-point body is not modelled. */
  type SineCompute = (u64, map<OutputNo, Buffer>, map<InputNo, Buffer>, nat) -> Option<map<OutputNo, Buffer>>

  /** Runs a primitive processor for one block (`compute_outplace`). */
  function ProcessorCompute(proc: PrimProcessor, sine: SineCompute, output: map<OutputNo, Buffer>,
                            input: map<InputNo, Buffer>, sz: nat): Option<map<OutputNo, Buffer>>
  {
    match proc
    case SineOscProc(fs) => sine(fs, output, input, sz)
    case ConstantProc(v) => ConstantCompute(v, output, input, sz)
  }

  /**
   * The processor built for a descriptor computes what the descriptor
   * declares: an oscillator runs at twice its Nyquist frequency, and a
   * constant fills an output of its declared type with its own value.
   */
  lemma {:induction false} ProcessorMatchesDeclaration(p: PrimElement, sine: SineCompute, output: map<OutputNo, Buffer>,
                                                       input: map<InputNo, Buffer>, sz: nat)
    ensures p.SineOscF32? ==>
      ProcessorCompute(MkPrimElementProcessor(p), sine, output, input, sz) == sine(WrapU64(2 * p.fNyq), output, input, sz)
    ensures p.Constant? && OutputNo(0) in output && TestType(output[OutputNo(0)], OutputTypes(p)[OutputNo(0)]) ==>
      var r := ProcessorCompute(MkPrimElementProcessor(p), sine, output, input, sz);
      && r.Some? && r.value.Keys == output.Keys
      && TestType(r.value[OutputNo(0)], OutputTypes(p)[OutputNo(0)])
      && |r.value[OutputNo(0)].samples| == sz
      && forall i | 0 <= i < sz :: r.value[OutputNo(0)].samples[i] == ValueSample(p.value)
  {
    if p.Constant? && OutputNo(0) in output && TestType(output[OutputNo(0)], OutputTypes(p)[OutputNo(0)]) {
      ConstantKeepsOutputType(p.value, p.fNyq, output, input, sz);
    }
  }

  // ---------------------------------------------------------------------
  // Multiply and add

  datatype PureOp = Multiply | Add

  function Apply(op: PureOp, a: Sample, b: Sample): Sample
  {
    match op
    case Multiply => a * b
    case Add => a + b
  }

  /** y[i] := x0[i] op x1[i] for i < min(|y|, |x0|, |x1|); the rest of y is kept. */
  function ZipWith(op: PureOp, y: seq<Sample>, x0: seq<Sample>, x1: seq<Sample>): (r: seq<Sample>)
    ensures |r| == |y|
    ensures forall i | 0 <= i < |y| ::
      r[i] == if i < |x0| && i < |x1| then Apply(op, x0[i], x1[i]) else y[i]
  {
    seq(|y|, i requires 0 <= i < |y| => if i < |x0| && i < |x1| then Apply(op, x0[i], x1[i]) else y[i])
  }

  predicate IsSampledF32(b: Buffer)
  {
    b.SampledBuf? && b.ty == PrimType.F32
  }

  /** The output or a connected input is not a sampled F32 buffer: `unwrap_match!` panics. */
  predicate PurePanics(output: map<OutputNo, Buffer>, input: map<InputNo, Buffer>)
  {
    && OutputNo(0) in output
    && (|| !IsSampledF32(output[OutputNo(0)])
        || (&& InputNo(0) in input && InputNo(1) in input
            && !(IsSampledF32(input[InputNo(0)]) && IsSampledF32(input[InputNo(1)]))))
  }

  /** The shared body of the two stateless two-input primitives. */
  function PureCompute(op: PureOp, output: map<OutputNo, Buffer>, input: map<InputNo, Buffer>, sz: nat)
    : Option<map<OutputNo, Buffer>>
  {
    if OutputNo(0) !in output then Some(output)
    else
      var y := output[OutputNo(0)];
      if !IsSampledF32(y) then None
      else
        var y1 := UpdateSize(y, sz);
        if InputNo(0) in input && InputNo(1) in input then
          var x0 := input[InputNo(0)];
          var x1 := input[InputNo(1)];
          if !IsSampledF32(x0) || !IsSampledF32(x1) then None
          else Some(output[OutputNo(0) := SampledBuf(PrimType.F32, ZipWith(op, y1.samples, x0.samples, x1.samples))])
        else Some(output[OutputNo(0) := Clear(y1)])
  }

  /** Both inputs connected: the panic conditions and the product. */
  function MultiplyF32Compute(output: map<OutputNo, Buffer>, input: map<InputNo, Buffer>, sz: nat)
    : (r: Option<map<OutputNo, Buffer>>)
    ensures OutputNo(0) !in output ==> r == Some(output)
    ensures r.None? <==> PurePanics(output, input)
    ensures r.Some? ==> r.value.Keys == output.Keys
    ensures r.Some? ==> forall k | k in output && k != OutputNo(0) :: r.value[k] == output[k]
    ensures r.Some? && OutputNo(0) in output ==>
      var y := r.value[OutputNo(0)];
      var y0 := output[OutputNo(0)].samples;
      && IsSampledF32(y) && |y.samples| == sz
      && if InputNo(0) in input && InputNo(1) in input then
           var x0 := input[InputNo(0)].samples;
           var x1 := input[InputNo(1)].samples;
           forall i | 0 <= i < sz ::
             y.samples[i] == if i < |x0| && i < |x1| then x0[i] * x1[i] else if i < |y0| then y0[i] else 0
         else forall i | 0 <= i < sz :: y.samples[i] == 0
  {
    PureCompute(Multiply, output, input, sz)
  }

  /** Both inputs connected: the panic conditions and the sum. */
  function AddF32Compute(output: map<OutputNo, Buffer>, input: map<InputNo, Buffer>, sz: nat)
    : (r: Option<map<OutputNo, Buffer>>)
    ensures OutputNo(0) !in output ==> r == Some(output)
    ensures r.None? <==> PurePanics(output, input)
    ensures r.Some? ==> r.value.Keys == output.Keys
    ensures r.Some? ==> forall k | k in output && k != OutputNo(0) :: r.value[k] == output[k]
    ensures r.Some? && OutputNo(0) in output ==>
      var y := r.value[OutputNo(0)];
      var y0 := output[OutputNo(0)].samples;
      && IsSampledF32(y) && |y.samples| == sz
      && if InputNo(0) in input && InputNo(1) in input then
           var x0 := input[InputNo(0)].samples;
           var x1 := input[InputNo(1)].samples;
           forall i | 0 <= i < sz ::
             y.samples[i] == if i < |x0| && i < |x1| then x0[i] + x1[i] else if i < |y0| then y0[i] else 0
         else forall i | 0 <= i < sz :: y.samples[i] == 0
  {
    PureCompute(Add, output, input, sz)
  }

  /**
   * With one input unconnected, a multiply writes `sz` zeros whatever the
   * output held before: no stale data survives.
   */
  lemma {:induction false} UnconnectedInputClears(output: map<OutputNo, Buffer>, input: map<InputNo, Buffer>, sz: nat)
    requires OutputNo(0) in output && IsSampledF32(output[OutputNo(0)])
    requires InputNo(0) !in input || InputNo(1) !in input
    ensures MultiplyF32Compute(output, input, sz).Some?
    ensures MultiplyF32Compute(output, input, sz).value[OutputNo(0)] == SampledBuf(PrimType.F32, Zeros(sz))
  {
    var y := MultiplyF32Compute(output, input, sz).value[OutputNo(0)];
    assert y.samples == Zeros(sz);
  }

  /**
   * Stateless: when both inputs hold at least `sz` samples, the result does
   * not depend on what the output buffer held before.
   */
  lemma {:induction false} PureOverwritesOutput(op: PureOp, out1: map<OutputNo, Buffer>, out2: map<OutputNo, Buffer>, input: map<InputNo, Buffer>, sz: nat)
    requires OutputNo(0) in out1 && IsSampledF32(out1[OutputNo(0)])
    requires OutputNo(0) in out2 && IsSampledF32(out2[OutputNo(0)])
    requires InputNo(0) in input && IsSampledF32(input[InputNo(0)]) && |input[InputNo(0)].samples| >= sz
    requires InputNo(1) in input && IsSampledF32(input[InputNo(1)]) && |input[InputNo(1)].samples| >= sz
    ensures PureCompute(op, out1, input, sz).Some? && PureCompute(op, out2, input, sz).Some?
    ensures PureCompute(op, out1, input, sz).value[OutputNo(0)] == PureCompute(op, out2, input, sz).value[OutputNo(0)]
  {
    var a := PureCompute(op, out1, input, sz).value[OutputNo(0)];
    var b := PureCompute(op, out2, input, sz).value[OutputNo(0)];
    assert a.samples == b.samples;
  }
}
