/**
 * Per-edge buffers: a sampled buffer is a resizable sequence of samples of
 * one primitive kind, an event buffer a sequence of timed values. Merging
 * sums sampled buffers elementwise and concatenates event buffers;
 * clearing zeroes samples and drops events.
 */
module Buffers {
  import opened Types
  import opened Wrappers

  datatype Event = Event(time: u64, value: Sample)

  /** A sampled or an event buffer, tagged with its primitive kind. */
  datatype Buffer =
    | SampledBuf(ty: PrimType, samples: seq<Sample>)
    | EventBuf(ty: PrimType, events: seq<Event>)

  function Min(a: nat, b: nat): nat
  {
    if a <= b then a else b
  }

  /** The buffer's shape and kind agree with `t` (the Nyquist frequency is not checked). */
  predicate TestType(b: Buffer, t: Type)
  {
    match b
    case SampledBuf(k, _) => t.Sampled? && t.ty == k
    case EventBuf(k, _) => t.Event? && t.ty == k
  }

  /** Same variant and same primitive kind: the buffers can be merged. */
  predicate SameShape(x: Buffer, y: Buffer)
  {
    x.SampledBuf? == y.SampledBuf? && x.ty == y.ty
  }

  /** A fresh, empty buffer for a type. */
  function New(t: Type): (b: Buffer)
    ensures TestType(b, t)
    ensures b.SampledBuf? ==> b.samples == []
    ensures b.EventBuf? ==> b.events == []
  {
    match t
    case Sampled(k, _) => SampledBuf(k, [])
    case Event(k) => EventBuf(k, [])
  }

  /** Buffers passing the type test for one type can be merged. */
  lemma {:induction false} TestTypeSameShape(x: Buffer, y: Buffer, t: Type)
    requires TestType(x, t) && TestType(y, t)
    ensures SameShape(x, y)
  {
  }

  function Zeros(n: nat): (z: seq<Sample>)
    ensures |z| == n
    ensures forall i | 0 <= i < n :: z[i] == 0
  {
    seq(n, _ => 0)
  }

  /** Keeps the first min(|s|, sz) samples and pads with zero up to length sz. */
  function Resize(s: seq<Sample>, sz: nat): (r: seq<Sample>)
    ensures |r| == sz
    ensures forall i | 0 <= i < Min(|s|, sz) :: r[i] == s[i]
    ensures forall i | |s| <= i < sz :: r[i] == 0
  {
    if sz <= |s| then s[..sz] else s + Zeros(sz - |s|)
  }

  /** The number of samples of a sampled buffer. */
  function Len(b: Buffer): nat
    requires b.SampledBuf?
  {
    |b.samples|
  }

  /**
   * The sampled buffer's length as processor.rs writes it: the method calls
   * itself and nothing else, so it never returns. `depth` bounds the calls
   * the stack allows; `None` is the overflow.
   */
  function LenAsWritten(b: Buffer, depth: nat): Option<nat>
    requires b.SampledBuf?
    decreases depth
  {
    if depth == 0 then None else LenAsWritten(b, depth - 1)
  }

  /** However deep the stack, the self-call overflows it before a length is returned. */
  lemma {:induction false} LenAsWrittenOverflows(b: Buffer, depth: nat)
    requires b.SampledBuf?
    ensures LenAsWritten(b, depth) == None
    decreases depth
  {
    if depth > 0 {
      LenAsWrittenOverflows(b, depth - 1);
    }
  }

  /**
   * Resizes a sampled buffer to `sz` samples, only when its length differs;
   * event buffers are left alone.
   */
  function UpdateSize(b: Buffer, sz: nat): (r: Buffer)
    ensures SameShape(r, b)
    ensures b.EventBuf? ==> r == b
    ensures b.SampledBuf? ==> |r.samples| == sz
    ensures b.SampledBuf? ==> forall i | 0 <= i < Min(|b.samples|, sz) :: r.samples[i] == b.samples[i]
    ensures b.SampledBuf? ==> forall i | |b.samples| <= i < sz :: r.samples[i] == 0
    ensures b.SampledBuf? && |b.samples| == sz ==> r == b
  {
    match b
    case SampledBuf(k, s) => if Len(b) != sz then SampledBuf(k, Resize(s, sz)) else b
    case EventBuf(_, _) => b
  }

  /** Resizing twice to the same size is resizing once. */
  lemma {:induction false} UpdateSizeIdempotent(b: Buffer, sz: nat)
    ensures UpdateSize(UpdateSize(b, sz), sz) == UpdateSize(b, sz)
  {
  }

  /**
   * Sampled: adds the other's samples into the receiver's first
   * min(|x|, |y|) samples and keeps the receiver's length. Event: appends
   * the other's events after the receiver's.
   */
  function Merge(x: Buffer, y: Buffer): (r: Buffer)
    requires SameShape(x, y)
    ensures SameShape(r, x)
    ensures x.SampledBuf? ==> |r.samples| == |x.samples|
    ensures x.SampledBuf? ==> forall i | 0 <= i < Min(|x.samples|, |y.samples|) ::
      r.samples[i] == x.samples[i] + y.samples[i]
    ensures x.SampledBuf? ==> forall i | |y.samples| <= i < |x.samples| :: r.samples[i] == x.samples[i]
    ensures x.EventBuf? ==> r.events == x.events + y.events
  {
    match x
    case SampledBuf(k, xs) =>
      SampledBuf(k, seq(|xs|, i requires 0 <= i < |xs| => if i < |y.samples| then xs[i] + y.samples[i] else xs[i]))
    case EventBuf(k, xe) => EventBuf(k, xe + y.events)
  }

  /** Zeroes every sample and keeps the length; empties an event buffer. */
  function Clear(b: Buffer): (r: Buffer)
    ensures SameShape(r, b)
    ensures b.SampledBuf? ==> |r.samples| == |b.samples|
    ensures b.SampledBuf? ==> forall i | 0 <= i < |r.samples| :: r.samples[i] == 0
    ensures b.EventBuf? ==> r.events == []
  {
    match b
    case SampledBuf(k, s) => SampledBuf(k, Zeros(|s|))
    case EventBuf(k, _) => EventBuf(k, [])
  }

  /** Clearing twice is clearing once, and clearing keeps the buffer's type. */
  lemma {:induction false} ClearIdempotent(b: Buffer, t: Type)
    ensures Clear(Clear(b)) == Clear(b)
    ensures TestType(b, t) ==> TestType(Clear(b), t)
  {
  }

  /** A cleared buffer is the identity of merging. */
  lemma {:induction false} MergeClearedIsIdentity(x: Buffer, y: Buffer)
    requires SameShape(x, y)
    ensures Merge(x, Clear(y)) == x
  {
  }

  /** Sampled merging of equal-length buffers commutes. */
  lemma {:induction false} MergeCommutes(x: Buffer, y: Buffer)
    requires SameShape(x, y) && x.SampledBuf? && |x.samples| == |y.samples|
    ensures Merge(x, y) == Merge(y, x)
  {
  }

  // ---------------------------------------------------------------------
  // Fan-in: merging a sequence of buffers into a head buffer

  predicate AllSameShape(head: Buffer, tails: seq<Buffer>)
  {
    forall j | 0 <= j < |tails| :: SameShape(head, tails[j])
  }

  /** The head merged with each tail in turn. */
  function MergeAll(head: Buffer, tails: seq<Buffer>): (r: Buffer)
    requires AllSameShape(head, tails)
    ensures SameShape(r, head)
    ensures head.SampledBuf? ==> |r.samples| == |head.samples|
    decreases |tails|
  {
    if tails == [] then head else MergeAll(Merge(head, tails[0]), tails[1..])
  }

  /** The sum of sample `i` over a sequence of sampled buffers. */
  function SumAt(bs: seq<Buffer>, i: nat): Sample
    requires forall j | 0 <= j < |bs| :: bs[j].SampledBuf? && i < |bs[j].samples|
  {
    if bs == [] then 0 else bs[0].samples[i] + SumAt(bs[1..], i)
  }

  function ConcatEvents(bs: seq<Buffer>): seq<Event>
    requires forall j | 0 <= j < |bs| :: bs[j].EventBuf?
  {
    if bs == [] then [] else bs[0].events + ConcatEvents(bs[1..])
  }

  /** Fan-in of equal-length sampled buffers is their elementwise sum. */
  lemma {:induction false} MergeAllSums(head: Buffer, tails: seq<Buffer>)
    requires head.SampledBuf? && AllSameShape(head, tails)
    requires forall j | 0 <= j < |tails| :: |tails[j].samples| == |head.samples|
    ensures forall i | 0 <= i < |head.samples| ::
      MergeAll(head, tails).samples[i] == head.samples[i] + SumAt(tails, i)
    decreases |tails|
  {
    if tails != [] {
      var m := Merge(head, tails[0]);
      MergeAllSums(m, tails[1..]);
    }
  }

  /** Fan-in of event buffers concatenates their events in order. */
  lemma {:induction false} MergeAllConcatenates(head: Buffer, tails: seq<Buffer>)
    requires head.EventBuf? && AllSameShape(head, tails)
    ensures MergeAll(head, tails).events == head.events + ConcatEvents(tails)
    decreases |tails|
  {
    if tails != [] {
      var m := Merge(head, tails[0]);
      MergeAllConcatenates(m, tails[1..]);
    }
  }

  /** Two buffers that pass the type test for one type merge into one that passes it. */
  lemma {:induction false} MergeKeepsType(x: Buffer, y: Buffer, t: Type)
    requires TestType(x, t) && TestType(y, t)
    ensures SameShape(x, y) && TestType(Merge(x, y), t)
  {
  }
}
