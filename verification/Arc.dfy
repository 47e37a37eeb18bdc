/** The fast arc: samples of a precomputed circle between two sample numbers, in either direction. */
module Arc {

  const TABLE_SIZE := 48

  /** The remainder of the source's language, which takes the sign of the dividend. */
  function Rem(x: int): int {
    if x >= 0 then x % TABLE_SIZE else -((-x) % TABLE_SIZE)
  }

  /** The place of a sample on the circle. */
  function Place(sample: int): (r: int)
    ensures 0 <= r < TABLE_SIZE
  {
    sample % TABLE_SIZE
  }

  /** The step: a sensible one is chosen if none is given, and never more than a quarter circle. */
  function StepSize(step: int, autoCount: nat): (r: nat)
    requires autoCount > 0
    ensures 1 <= r <= TABLE_SIZE / 4
  {
    var s := if step <= 0 then TABLE_SIZE / autoCount else step;
    if s < 1 then 1 else if s > TABLE_SIZE / 4 then TABLE_SIZE / 4 else s
  }

  /** A given step is taken up to a quarter circle; the automatic one is the largest that makes at least the
      automatic number of segments out of the full circle, between one sample and a quarter circle. */
  lemma StepSizeIs(step: int, autoCount: nat)
    requires autoCount > 0
    ensures step > 0 ==> StepSize(step, autoCount) == if step < 12 then step else 12
    ensures step <= 0 && autoCount >= 48 ==> StepSize(step, autoCount) == 1
    ensures step <= 0 && autoCount <= 4 ==> StepSize(step, autoCount) == 12
    ensures step <= 0 && 4 <= autoCount <= 48 ==>
      var r := StepSize(step, autoCount); r * autoCount <= 48 < (r + 1) * autoCount
  {
    var q := TABLE_SIZE / autoCount;
    assert TABLE_SIZE == q * autoCount + TABLE_SIZE % autoCount;
    assert (q + 1) * autoCount == q * autoCount + autoCount;
    if autoCount <= 4 { assert q < 12 ==> q * autoCount <= 11 * autoCount; }
    if autoCount >= 4 { assert q > 12 ==> q * autoCount >= 13 * autoCount; }
    if 4 <= autoCount <= 48 { assert q < 1 ==> q * autoCount <= 0; }
    if autoCount >= 48 { assert q > 1 ==> q * autoCount >= 2 * autoCount; }
  }

  function Steps(range: nat, step: nat): nat requires step > 0 { range / step }

  function Over(range: nat, step: nat): (r: nat)
    requires step > 0
    ensures r < step
  {
    range % step
  }

  /** The first step is shortened when the range is no multiple of the step. */
  function FirstStep(range: nat, step: nat): (r: nat)
    requires step > 0
    ensures 1 <= r <= step
  {
    var over := Over(range, step);
    if over > 0 then step - (step - over) / 2 else step
  }

  /** How far sample `k` is from the start. */
  function Offset(k: nat, first: nat, step: nat): nat {
    if k == 0 then 0 else first + (k - 1) * step
  }

  lemma OffsetStep(k: nat, first: nat, step: nat)
    ensures Offset(k + 1, first, step) == Offset(k, first, step) + if k == 0 then first else step
  {
    if k > 0 { assert k * step == (k - 1) * step + step; }
  }

  lemma {:induction false} OffsetsGrow(i: nat, j: nat, first: nat, step: nat)
    requires i <= j
    ensures Offset(i, first, step) <= Offset(j, first, step)
  {
    if i < j {
      OffsetsGrow(i, j - 1, first, step);
      OffsetStep(j - 1, first, step);
    }
  }

  /** The loop emits one sample more than there are whole steps; what is left of the range after
      them is less than a step, and nothing exactly when the range is a multiple. */
  lemma LoopCount(range: nat, step: nat, k: nat)
    requires step > 0
    requires k > 0 ==> Offset(k - 1, FirstStep(range, step), step) <= range
    requires Offset(k, FirstStep(range, step), step) > range
    ensures k == Steps(range, step) + 1
    ensures 0 <= range - Offset(k - 1, FirstStep(range, step), step) < step
    ensures Over(range, step) == 0 <==> Offset(k - 1, FirstStep(range, step), step) == range
  {
    hide Steps, Over, Offset, FirstStep;
    var q, first := Steps(range, step), FirstStep(range, step);
    WholeSteps(range, step);
    if k < q + 1 { OffsetsGrow(k, q, first, step); }
    if k > q + 1 { OffsetsGrow(q + 1, k - 1, first, step); }
  }

  lemma WholeSteps(range: nat, step: nat)
    requires step > 0
    ensures var q, first := Steps(range, step), FirstStep(range, step);
      && Offset(q, first, step) <= range < Offset(q + 1, first, step)
      && range - Offset(q, first, step) < step
      && (Over(range, step) == 0 <==> Offset(q, first, step) == range)
  {
    Divided(range, step);
    hide Steps, Over;
    var q, over := Steps(range, step), Over(range, step);
    assert q > 0 ==> q * step == (q - 1) * step + step;
  }

  lemma Divided(range: nat, step: nat)
    requires step > 0
    ensures range == Steps(range, step) * step + Over(range, step)
  {}

  function Range(from: int, to: int): nat {
    if to >= from then to - from else from - to
  }

  /** From `from` on, `distance` towards `to`. */
  function Toward(from: int, to: int, distance: int): int {
    if to >= from then from + distance else from - distance
  }

  /** The samples an arc should have: from the first to the last, every one at most a step after the
      one before, and every one taken from the table at its place on the circle. */
  predicate Samples(out: seq<int>, angles: seq<int>, aMin: int, aMax: int, step: nat) {
    && |out| == |angles| > 0 && angles[0] == aMin && angles[|angles| - 1] == aMax
    && (forall k | 0 <= k < |angles| :: out[k] == Place(angles[k]))
    && (forall k | 0 < k < |angles| ::
          0 < (if aMax >= aMin then angles[k] - angles[k - 1] else angles[k - 1] - angles[k]) <= step)
  }

  function Gap(angles: seq<int>, aMin: int, aMax: int, k: nat): int
    requires 0 < k < |angles|
  {
    if aMax >= aMin then angles[k] - angles[k - 1] else angles[k - 1] - angles[k]
  }

  /** All gaps are full steps but the first and the last, which share what is left over evenly. */
  predicate Even(angles: seq<int>, aMin: int, aMax: int, step: nat) {
    && (forall k: nat | 1 < k < |angles| - 1 :: Gap(angles, aMin, aMax, k) == step)
    && (|angles| >= 3 ==> 0 <= Gap(angles, aMin, aMax, 1) - Gap(angles, aMin, aMax, |angles| - 1) <= 1)
  }

  /** What the first gap is short of a step, the last one is short of as well, give or take one. */
  lemma GapsShare(range: nat, step: nat)
    requires step > 0 && Steps(range, step) > 0
    ensures var first := FirstStep(range, step); var last := range - Offset(Steps(range, step), first, step);
      && (Over(range, step) > 0 ==> 0 <= first - last <= 1)
      && (Over(range, step) == 0 ==> first == step)
  {
    Divided(range, step);
    hide Steps, Over;
    var q := Steps(range, step);
    assert q * step == (q - 1) * step + step;
  }

  lemma EmittedEven(out: seq<int>, angles: seq<int>, aMin: int, aMax: int, step: nat, extra: bool)
    requires step > 0 && Emitted(out, angles, aMin, aMax, FirstStep(Range(aMin, aMax), step), step)
    requires |out| == Steps(Range(aMin, aMax), step) + 1
    requires extra <==> Over(Range(aMin, aMax), step) > 0
    ensures Even(if extra then angles + [aMax] else angles, aMin, aMax, step)
  {
    hide Steps, Over, Offset, FirstStep, Place;
    var first := FirstStep(Range(aMin, aMax), step);
    var all := if extra then angles + [aMax] else angles;
    OffsetZero(first, step);
    if |angles| > 1 { GapsShare(Range(aMin, aMax), step); }
    forall k: nat | 0 < k < |angles| ensures Gap(all, aMin, aMax, k) == if k == 1 then first else step {
      OffsetStep(k - 1, first, step);
    }
  }

  /** The samples the loop emits, and that they are part of a right answer. */
  predicate Emitted(out: seq<int>, angles: seq<int>, aMin: int, aMax: int, first: nat, step: nat) {
    && |out| == |angles|
    && (forall k | 0 <= k < |angles| ::
          angles[k] == Toward(aMin, aMax, Offset(k, first, step)) && out[k] == Place(angles[k]))
  }

  lemma EmittedSamples(out: seq<int>, angles: seq<int>, aMin: int, aMax: int, step: nat, extra: bool)
    requires step > 0 && Emitted(out, angles, aMin, aMax, FirstStep(Range(aMin, aMax), step), step)
    requires |out| == Steps(Range(aMin, aMax), step) + 1
    requires Offset(|out| - 1, FirstStep(Range(aMin, aMax), step), step) <= Range(aMin, aMax)
    requires Offset(|out|, FirstStep(Range(aMin, aMax), step), step) > Range(aMin, aMax)
    requires extra <==> Over(Range(aMin, aMax), step) > 0
    ensures if extra then Samples(out + [Place(aMax)], angles + [aMax], aMin, aMax, step)
            else Samples(out, angles, aMin, aMax, step)
  {
    hide Steps, Over, Offset, FirstStep, Place;
    var range := Range(aMin, aMax);
    var first := FirstStep(range, step);
    OffsetZero(first, step);
    LoopCount(range, step, |out|);
    forall k | 0 < k < |angles|
      ensures 0 < (if aMax >= aMin then angles[k] - angles[k - 1] else angles[k - 1] - angles[k]) <= step
    {
      OffsetStep(k - 1, first, step);
    }
  }

  /** The points of an arc, as places in the table; as many as were reserved for it. */
  method PathArcToFastEx(aMin: int, aMax: int, aStep0: int, autoCount: nat)
    returns (reserved: nat, out: seq<int>, ghost angles: seq<int>)
    requires autoCount > 0
    ensures |out| == reserved && Samples(out, angles, aMin, aMax, StepSize(aStep0, autoCount))
    ensures Even(angles, aMin, aMax, StepSize(aStep0, autoCount))
  {
    hide Offset, FirstStep, Samples, Steps, Over, Emitted, Even;
    var aStep := aStep0;
    if aStep <= 0 {
      aStep := TABLE_SIZE / autoCount;
    }
    aStep := if aStep < 1 then 1 else if aStep > TABLE_SIZE / 4 then TABLE_SIZE / 4 else aStep;
    var sampleRange := if aMax >= aMin then aMax - aMin else aMin - aMax;
    var step := aStep;
    var extra;
    reserved, extra, aStep := Plan(sampleRange, step);
    out, angles := Emit(aMin, aMax, aStep, step);
    EmittedSamples(out, angles, aMin, aMax, step, extra);
    EmittedEven(out, angles, aMin, aMax, step, extra);
    if extra {
      var last := Rem(aMax);
      if last < 0 {
        last := last + TABLE_SIZE;
      }
      out := out + [last];
      angles := angles + [aMax];
    }
  }

  /** How many samples there will be, and the first step. */
  method Plan(sampleRange: nat, step: nat) returns (samples: nat, extra: bool, first: nat)
    requires step > 0
    ensures first == FirstStep(sampleRange, step) && (extra <==> Over(sampleRange, step) > 0)
    ensures samples == Steps(sampleRange, step) + 1 + if extra then 1 else 0
  {
    samples, extra, first := sampleRange + 1, false, step;
    if step > 1 {
      samples := sampleRange / step + 1;
      var overstep := sampleRange % step;
      if overstep > 0 {
        extra := true;
        samples := samples + 1;
        if sampleRange > 0 {
          first := first - (step - overstep) / 2;
        }
      }
    } else {
      DividedByOne(sampleRange);
    }
  }

  lemma DividedByOne(x: nat)
    ensures x / 1 == x && x % 1 == 0
  {}

  /** The loop, up or down. */
  method Emit(aMin: int, aMax: int, first: nat, step: nat) returns (out: seq<int>, ghost angles: seq<int>)
    requires 0 < step <= TABLE_SIZE / 4 && first == FirstStep(Range(aMin, aMax), step)
    ensures Emitted(out, angles, aMin, aMax, first, step)
    ensures |out| == Steps(Range(aMin, aMax), step) + 1
    ensures Offset(|out| - 1, first, step) <= Range(aMin, aMax) < Offset(|out|, first, step)
  {
    hide FirstStep, Offset, Steps, Place;
    out, angles := [], [];
    OffsetZero(first, step);
    var aStep: int, a := first, aMin;
    var sampleIndex := Normalised(aMin);
    var up := aMax >= aMin;
    while if up then a <= aMax else a >= aMax
      invariant Emitted(out, angles, aMin, aMax, first, step)
      invariant a == Toward(aMin, aMax, Offset(|out|, first, step)) && aStep == (if |out| == 0 then first else step)
      invariant Place(sampleIndex) == Place(a)
      invariant if up then 0 <= sampleIndex < 2 * TABLE_SIZE else -TABLE_SIZE <= sampleIndex < TABLE_SIZE
      invariant |out| > 0 ==> Offset(|out| - 1, first, step) <= Range(aMin, aMax)
      decreases Range(aMin, aMax) - Offset(|out|, first, step)
    {
      OffsetStep(|out|, first, step);
      PlaceWraps(sampleIndex);
      if up {
        if sampleIndex >= TABLE_SIZE {
          sampleIndex := sampleIndex - TABLE_SIZE;
        }
      } else {
        if sampleIndex < 0 {
          sampleIndex := sampleIndex + TABLE_SIZE;
        }
      }
      out := out + [sampleIndex];
      angles := angles + [a];
      PlaceMoves(sampleIndex, a, if up then aStep else -aStep);
      if up {
        a, sampleIndex := a + aStep, sampleIndex + aStep;
      } else {
        a, sampleIndex := a - aStep, sampleIndex - aStep;
      }
      aStep := step;
    }
    LoopCount(Range(aMin, aMax), step, |out|);
  }

  /** The place of the first sample. */
  method Normalised(sample: int) returns (sampleIndex: int)
    ensures sampleIndex == Place(sample) == Place(sampleIndex)
  {
    sampleIndex := sample;
    if sampleIndex < 0 || sampleIndex >= TABLE_SIZE {
      sampleIndex := Rem(sampleIndex);
      if sampleIndex < 0 {
        sampleIndex := sampleIndex + TABLE_SIZE;
      }
    }
  }

  lemma PlaceWraps(s: int)
    ensures 0 <= s < TABLE_SIZE ==> Place(s) == s
    ensures TABLE_SIZE <= s < 2 * TABLE_SIZE ==> Place(s) == s - TABLE_SIZE == Place(s - TABLE_SIZE)
    ensures -TABLE_SIZE <= s < 0 ==> Place(s) == s + TABLE_SIZE == Place(s + TABLE_SIZE)
  {}

  lemma PlaceMoves(s: int, a: int, d: int)
    requires Place(s) == Place(a)
    ensures Place(s + d) == Place(a + d)
  {
    var k := s / TABLE_SIZE - a / TABLE_SIZE;
    assert s == a + TABLE_SIZE * k;
    PlaceTurns(a + d, k);
  }

  lemma PlaceTurns(a: int, k: int)
    ensures Place(a + TABLE_SIZE * k) == Place(a)
  {}

  lemma OffsetZero(first: nat, step: nat)
    ensures Offset(0, first, step) == 0
  {}
}
