/** The glyph range builder: a packed bit for every code point, turned into ranges and back. */
module GlyphRanges {

  /** The 32 bits of a word. */
  type Word = w: seq<bool> | |w| == 32 witness seq(32, _ => false)

  // ---------------------------------------------------------------- ranges

  datatype Range = Range(lo: int, hi: int)

  predicate Covered(rs: seq<Range>, n: int) {
    exists k :: 0 <= k < |rs| && rs[k].lo <= n <= rs[k].hi
  }

  /** The ranges of the bits that are set: in order, apart, as long as can be, and all of them. */
  predicate RangesOf(rs: seq<Range>, bits: seq<bool>) {
    && (forall k | 0 <= k < |rs| ::
          && 0 <= rs[k].lo <= rs[k].hi < |bits|
          && (rs[k].lo > 0 ==> !bits[rs[k].lo - 1]) && (rs[k].hi + 1 < |bits| ==> !bits[rs[k].hi + 1]))
    && (forall k | 0 < k < |rs| :: rs[k - 1].hi + 1 < rs[k].lo)
    && (forall n | 0 <= n < |bits| :: bits[n] <==> Covered(rs, n))
  }

  /** The same for the bits before `n` only. */
  predicate RangesUpTo(rs: seq<Range>, bits: seq<bool>, n: int) {
    && 0 <= n <= |bits|
    && (forall k | 0 <= k < |rs| ::
          && 0 <= rs[k].lo <= rs[k].hi < n
          && (rs[k].lo > 0 ==> !bits[rs[k].lo - 1]) && (rs[k].hi + 1 < |bits| ==> !bits[rs[k].hi + 1]))
    && (forall k | 0 < k < |rs| :: rs[k - 1].hi + 1 < rs[k].lo)
    && (forall m | 0 <= m < n :: bits[m] <==> Covered(rs, m))
  }

  lemma BitBefore(rs: seq<Range>, bits: seq<bool>, lo: int)
    requires RangesUpTo(rs, bits, lo) && lo < |bits| && bits[lo]
    ensures lo > 0 ==> !bits[lo - 1]
    ensures rs != [] ==> rs[|rs| - 1].hi + 1 < lo
  {}

  /** One more range, from the first bit set to the last before one that is not. */
  lemma OneMoreRange(rs: seq<Range>, bits: seq<bool>, lo: int, hi: int)
    requires RangesUpTo(rs, bits, lo) && lo <= hi < |bits|
    requires (forall m | lo <= m <= hi :: bits[m]) && (hi + 1 < |bits| ==> !bits[hi + 1])
    ensures RangesUpTo(rs + [Range(lo, hi)], bits, hi + 1)
  {
    hide Covered;
    var rs' := rs + [Range(lo, hi)];
    BitBefore(rs, bits, lo);
    forall m | 0 <= m <= hi ensures bits[m] <==> Covered(rs', m) {
      CoveredMore(rs, Range(lo, hi), m);
      NotCoveredBeyond(rs, bits, lo, m);
    }
  }

  lemma NotCoveredBeyond(rs: seq<Range>, bits: seq<bool>, n: int, m: int)
    requires RangesUpTo(rs, bits, n)
    ensures m >= n ==> !Covered(rs, m)
  {}

  lemma NoRangeYet(bits: seq<bool>)
    ensures RangesUpTo([], bits, 0)
  {}

  lemma SkippedBit(rs: seq<Range>, bits: seq<bool>, n: int)
    requires RangesUpTo(rs, bits, n) && n < |bits| && !bits[n]
    ensures RangesUpTo(rs, bits, n + 1)
  {}

  lemma AllRanges(rs: seq<Range>, bits: seq<bool>)
    requires RangesUpTo(rs, bits, |bits|)
    ensures RangesOf(rs, bits)
  {}

  lemma CoveredMore(rs: seq<Range>, r: Range, n: int)
    ensures Covered(rs + [r], n) <==> Covered(rs, n) || r.lo <= n <= r.hi
  {
    var all := rs + [r];
    if Covered(rs, n) {
      var k :| 0 <= k < |rs| && rs[k].lo <= n <= rs[k].hi;
      assert all[k] == rs[k];
    }
    if r.lo <= n <= r.hi { assert all[|rs|] == r; }
  }

  /** The list as it is passed on: pairs of bounds and a 0 at the end. */
  function Flat(rs: seq<Range>): seq<int> { Pairs(rs) + [0] }

  function Pairs(rs: seq<Range>): seq<int> {
    if rs == [] then [] else Pairs(rs[..|rs| - 1]) + [rs[|rs| - 1].lo, rs[|rs| - 1].hi]
  }

  lemma {:induction false} PairsFront(rs: seq<Range>)
    requires rs != []
    ensures Pairs(rs) == [rs[0].lo, rs[0].hi] + Pairs(rs[1..])
    decreases |rs|
  {
    hide Pairs;
    var front, rest, last := rs[..|rs| - 1], rs[1..], rs[|rs| - 1];
    PairsLast(rs);
    if |rs| > 1 {
      PairsFront(front);
      PairsLast(rest);
      assert front[1..] == rest[..|rest| - 1];
    } else {
      PairsNone();
    }
  }

  lemma PairsLast(rs: seq<Range>)
    requires rs != []
    ensures Pairs(rs) == Pairs(rs[..|rs| - 1]) + [rs[|rs| - 1].lo, rs[|rs| - 1].hi]
  {}

  lemma PairsNone()
    ensures Pairs([]) == []
  {}

  predicate Terminated(flat: seq<int>) {
    |flat| > 0 && (flat[0] == 0 || (|flat| >= 2 && Terminated(flat[2..])))
  }

  /** What a reader takes from such a list: everything before the first pair that starts with 0. */
  function Parsed(flat: seq<int>): seq<Range>
    requires Terminated(flat)
  {
    if flat[0] == 0 then [] else [Range(flat[0], flat[1])] + Parsed(flat[2..])
  }

  /** The reader at position `p`, with `done` read. */
  lemma ReadOn(ranges: seq<int>, p: nat, done: seq<Range>)
    requires p < |ranges| && Terminated(ranges[p..])
    ensures ranges[p] == 0 ==> Parsed(ranges[p..]) == []
    ensures ranges[p] != 0 ==>
      && p + 2 < |ranges| && Terminated(ranges[p + 2..])
      && done + Parsed(ranges[p..]) == (done + [Range(ranges[p], ranges[p + 1])]) + Parsed(ranges[p + 2..])
  {
    if ranges[p] != 0 { assert ranges[p..][2..] == ranges[p + 2..]; }
  }

  lemma {:induction false} FlatParsed(rs: seq<Range>)
    requires forall k | 0 <= k < |rs| :: rs[k].lo != 0
    ensures Terminated(Flat(rs)) && Parsed(Flat(rs)) == rs
  {
    if rs != [] {
      FlatParsed(rs[1..]);
      PairsFront(rs);
      assert Flat(rs)[2..] == Flat(rs[1..]);
    }
  }

  lemma FlatFromZero(rs: seq<Range>)
    requires rs != [] && rs[0].lo == 0
    ensures Terminated(Flat(rs)) && Parsed(Flat(rs)) == []
  {
    PairsFront(rs);
  }

  lemma {:induction false} LaterStarts(rs: seq<Range>, bits: seq<bool>, k: nat)
    requires RangesOf(rs, bits) && 0 < k < |rs|
    ensures rs[k].lo > 0
  {
    assert rs[k - 1].hi + 1 < rs[k].lo;
  }

  /** What is read back: everything, unless code point 0 is among the bits, and then nothing.  So the
      ranges restore the bits exactly when it is not. */
  lemma RangesRestore(rs: seq<Range>, bits: seq<bool>)
    requires RangesOf(rs, bits) && bits != []
    ensures Terminated(Flat(rs))
    ensures (forall n | 0 <= n < |bits| :: bits[n] <==> Covered(Parsed(Flat(rs)), n)) <==> !bits[0]
  {
    if bits[0] {
      assert Covered(rs, 0);
      var k :| 0 <= k < |rs| && rs[k].lo <= 0 <= rs[k].hi;
      if k > 0 { LaterStarts(rs, bits, k); }
      FlatFromZero(rs);
      assert !Covered([], 0);
    } else {
      forall k | 0 <= k < |rs| ensures rs[k].lo != 0 {
        assert rs[k].lo == 0 ==> Covered(rs, 0);
      }
      FlatParsed(rs);
    }
  }

  // ---------------------------------------------------------------- the builder

  lemma StartOf(ranges: seq<int>)
    requires Terminated(ranges)
    ensures ranges != [] && ranges[0..] == ranges && forall n :: !Covered([], n)
  {}

  class GlyphRangesBuilder {
    /** The last code point: 0xFFFF or 0x10FFFF, as the build has it. */
    const max: nat
    const usedChars: array<Word>

    ghost predicate Valid() {
      (max + 1) % 32 == 0 && usedChars.Length == (max + 1) / 32
    }

    ghost function Bits(): (r: seq<bool>)
      reads usedChars
      requires Valid()
      ensures |r| == max + 1
    {
      seq(max + 1, n requires 0 <= n <= max && Valid() reads usedChars => usedChars[n / 32][n % 32])
    }

    constructor (max: nat)
      requires (max + 1) % 32 == 0
      ensures Valid() && fresh(usedChars) && this.max == max && Bits() == seq(max + 1, _ => false)
    {
      this.max := max;
      usedChars := new Word[(max + 1) / 32](_ => seq(32, _ => false));
    }

    method GetBit(n: nat) returns (r: bool)
      requires Valid() && n <= max
      ensures r == Bits()[n]
    {
      r := usedChars[n / 32][n % 32];
    }

    method SetBit(n: nat)
      requires Valid() && n <= max
      modifies usedChars
      ensures Bits() == old(Bits())[n := true]
    {
      usedChars[n / 32] := usedChars[n / 32][n % 32 := true];
      forall m | 0 <= m <= max ensures Bits()[m] == old(Bits())[n := true][m] { SamePlace(n, m); }
    }

    /** Sets the bits of every range of the list, up to the last code point. */
    method AddRanges(ranges: seq<int>)
      requires Valid() && Terminated(ranges) && forall k | 0 <= k < |ranges| :: ranges[k] >= 0
      modifies usedChars
      ensures forall n | 0 <= n <= max :: Bits()[n] <==> old(Bits())[n] || Covered(Parsed(ranges), n)
    {
      hide Bits, Covered, Parsed, Terminated;
      var p := 0;
      ghost var done: seq<Range> := [];
      StartOf(ranges);
      while ranges[p] != 0
        invariant p < |ranges| && Terminated(ranges[p..]) && done + Parsed(ranges[p..]) == Parsed(ranges)
        invariant forall n | 0 <= n <= max :: Bits()[n] <==> old(Bits())[n] || Covered(done, n)
        decreases |ranges| - p
      {
        ReadOn(ranges, p, done);
        ghost var before := Bits();
        AddRange(ranges[p], ranges[p + 1]);
        ghost var more := done + [Range(ranges[p], ranges[p + 1])];
        forall n | 0 <= n <= max ensures Bits()[n] <==> old(Bits())[n] || Covered(more, n) {
          CoveredMore(done, Range(ranges[p], ranges[p + 1]), n);
        }
        done := more;
        p := p + 2;
      }
      ReadOn(ranges, p, done);
      assert done + [] == done;
    }

    method AddRange(lo: nat, hi: nat)
      requires Valid()
      modifies usedChars
      ensures forall n | 0 <= n <= max :: Bits()[n] <==> old(Bits())[n] || lo <= n <= hi
    {
      var c := lo;
      while c <= hi && c <= max
        invariant c >= lo && (c > lo ==> c <= max + 1 && c <= hi + 1)
        invariant forall n | 0 <= n <= max :: Bits()[n] <==> old(Bits())[n] || lo <= n < c
        decreases max + 1 - c
      {
        SetBit(c);
        c := c + 1;
      }
    }

    /** The ranges of the bits that are set. */
    method BuildRanges() returns (out: seq<int>)
      requires Valid()
      ensures exists rs :: RangesOf(rs, Bits()) && out == Flat(rs)
    {
      hide RangesUpTo, RangesOf, Bits;
      ghost var rs, bits := [], Bits();
      out := [];
      var n := 0;
      NoRangeYet(bits);
      while n <= max
        invariant n <= max + 1 && out == Pairs(rs) && RangesUpTo(rs, bits, n) && Bits() == bits
      {
        var used := GetBit(n);
        if used {
          out, n, rs := OneRange(n, out, rs, bits);
        } else {
          SkippedBit(rs, bits, n);
        }
        n := n + 1;
      }
      AllRanges(rs, bits);
      out := out + [0];
      assert RangesOf(rs, Bits()) && out == Flat(rs);
    }

    /** From a bit that is set to the end of its run. */
    method OneRange(lo: nat, out0: seq<int>, ghost rs0: seq<Range>, ghost bits: seq<bool>)
      returns (out: seq<int>, n: nat, ghost rs: seq<Range>)
      requires Valid() && lo <= max && bits == Bits() && |bits| == max + 1 && bits[lo] && RangesUpTo(rs0, bits, lo)
      requires out0 == Pairs(rs0)
      ensures lo <= n <= max && RangesUpTo(rs, bits, n + 1) && out == Pairs(rs)
    {
      hide RangesUpTo, Bits;
      out := out0 + [lo];
      n := LastOfRun(lo);
      out := out + [n];
      assert Bits() == bits;
      OneMoreRange(rs0, bits, lo, n);
      rs := rs0 + [Range(lo, n)];
      assert rs[..|rs| - 1] == rs0;
    }

    method LastOfRun(lo: nat) returns (n: nat)
      requires Valid() && lo <= max && Bits()[lo]
      ensures lo <= n <= max && (forall m | lo <= m <= n :: Bits()[m]) && (n < max ==> !Bits()[n + 1])
    {
      n := lo;
      while n < max
        invariant lo <= n <= max && forall m | lo <= m <= n :: Bits()[m]
      {
        var more := GetBit(n + 1);
        if !more {
          return;
        }
        n := n + 1;
      }
    }
  }

  lemma SamePlace(n: nat, m: nat)
    ensures n / 32 == m / 32 && n % 32 == m % 32 <==> n == m
  {}

  lemma {:induction false} PairsNonNegative(rs: seq<Range>)
    requires forall k | 0 <= k < |rs| :: 0 <= rs[k].lo && 0 <= rs[k].hi
    ensures forall x | x in Pairs(rs) :: x >= 0
    decreases |rs|
  {
    if rs != [] { PairsNonNegative(rs[..|rs| - 1]); }
  }

  /** Ranges and back: a cleared builder that is given the ranges of another has the same bits
      exactly when code point 0 is not among them. */
  method Copy(b: GlyphRangesBuilder) returns (c: GlyphRangesBuilder)
    requires b.Valid()
    ensures c.Valid() && c.max == b.max && fresh(c) && (c.Bits() == b.Bits() <==> !b.Bits()[0])
  {
    hide RangesOf, Pairs, Covered, Terminated, Parsed;
    var out := b.BuildRanges();
    ghost var bits := b.Bits();
    ghost var rs :| RangesOf(rs, bits) && out == Flat(rs);
    RangesRestore(rs, bits);
    RangesInBounds(rs, bits);
    PairsNonNegative(rs);
    assert forall k | 0 <= k < |out| :: out[k] == 0 || out[k] in Pairs(rs);
    c := new GlyphRangesBuilder(b.max);
    c.AddRanges(out);
    assert b.Bits() == bits;
    assert c.Bits() == bits <==> forall n | 0 <= n < |bits| :: c.Bits()[n] == bits[n];
    assert forall n | 0 <= n < |bits| :: c.Bits()[n] <==> Covered(Parsed(out), n);
  }

  lemma RangesInBounds(rs: seq<Range>, bits: seq<bool>)
    requires RangesOf(rs, bits)
    ensures forall k | 0 <= k < |rs| :: 0 <= rs[k].lo && 0 <= rs[k].hi
  {}
}
