/** The Adler-32 checksum: in blocks, with the remainders put off to the end of each block. */
module Adler {

  newtype byte = x: int | 0 <= x < 256

  const ADLER_MOD := 65521
  const BLOCK := 5552
  const TWO_32 := 0x1_0000_0000

  /** The two sums. */
  datatype Sums = Sums(s1: nat, s2: nat)

  /** Section 8.2 of RFC 1950: both sums are kept modulo 65521 at every byte. */
  function Checked(s: Sums, data: seq<byte>): Sums
    decreases |data|
  {
    if data == [] then s
    else
      var t := Checked(s, data[..|data| - 1]);
      var s1 := (t.s1 + data[|data| - 1] as int) % ADLER_MOD;
      Sums(s1, (t.s2 + s1) % ADLER_MOD)
  }

  /** The sums without any remainder. */
  function Deferred(s: Sums, data: seq<byte>): Sums
    decreases |data|
  {
    if data == [] then s
    else
      var t := Deferred(s, data[..|data| - 1]);
      var s1 := t.s1 + data[|data| - 1] as int;
      Sums(s1, t.s2 + s1)
  }

  function Reduced(s: Sums): Sums { Sums(s.s1 % ADLER_MOD, s.s2 % ADLER_MOD) }

  function Packed(s: Sums): nat { s.s2 * 0x1_0000 + s.s1 }

  function Unpacked(adler: nat): Sums { Sums(adler % 0x1_0000, adler / 0x1_0000) }

  lemma CheckedNothing(s: Sums)
    ensures Checked(s, []) == s
  {}

  lemma NothingDeferred(s: Sums)
    ensures Deferred(s, []) == s
  {}

  lemma CheckedSmall(s: Sums, data: seq<byte>)
    requires s.s1 < ADLER_MOD && s.s2 < ADLER_MOD
    ensures Checked(s, data).s1 < ADLER_MOD && Checked(s, data).s2 < ADLER_MOD
  {}

  lemma {:induction false} CheckedConcat(s: Sums, a: seq<byte>, b: seq<byte>)
    ensures Checked(s, a + b) == Checked(Checked(s, a), b)
    decreases |b|
  {
    if b == [] {
      assert a + b == a;
    } else {
      assert (a + b)[..|a + b| - 1] == a + b[..|b| - 1];
      CheckedConcat(s, a, b[..|b| - 1]);
    }
  }

  /** Putting the remainders off changes nothing. */
  lemma {:induction false} DeferredIsChecked(s: Sums, data: seq<byte>)
    ensures Reduced(Deferred(s, data)) == Reduced(Checked(s, data))
    ensures data != [] ==> Reduced(Deferred(s, data)) == Checked(s, data)
    decreases |data|
  {
    if data != [] {
      var front, b := data[..|data| - 1], data[|data| - 1] as int;
      DeferredIsChecked(s, front);
      OneByte(Deferred(s, front), Checked(s, front), b);
    }
  }

  /** One byte, with the remainders put off in `d` and taken in `c`. */
  lemma OneByte(d: Sums, c: Sums, b: nat)
    requires Reduced(d) == Reduced(c)
    ensures var c1 := (c.s1 + b) % ADLER_MOD; var e := Sums(c1, (c.s2 + c1) % ADLER_MOD);
      Reduced(Sums(d.s1 + b, d.s2 + (d.s1 + b))) == e == Reduced(e)
  {
    SameRemainder(d.s1, c.s1, b);
    var c1 := (c.s1 + b) % ADLER_MOD;
    Remaindered(c.s1 + b);
    SameRemainders(d.s2, c.s2, d.s1 + b, c1);
    Remaindered(c.s2 + c1);
  }

  lemma Remaindered(x: nat)
    ensures (x % ADLER_MOD) % ADLER_MOD == x % ADLER_MOD
  {}

  lemma SameRemainder(x: nat, y: nat, b: nat)
    requires x % ADLER_MOD == y % ADLER_MOD
    ensures (x + b) % ADLER_MOD == (y + b) % ADLER_MOD
  {}

  lemma SameRemainders(x: nat, y: nat, p: nat, q: nat)
    requires x % ADLER_MOD == y % ADLER_MOD && p % ADLER_MOD == q % ADLER_MOD
    ensures (x + p) % ADLER_MOD == (y + q) % ADLER_MOD
  {
    SameRemainder(x, y, p);
    SameRemainder(p, q, y);
  }

  function ByteSum(data: seq<byte>): nat {
    if data == [] then 0 else data[0] as int + ByteSum(data[1..])
  }

  /** Every byte counted once for itself and for each byte behind it. */
  function Weighted(data: seq<byte>): nat {
    if data == [] then 0 else |data| * data[0] as int + Weighted(data[1..])
  }

  lemma {:induction false} OneMoreByte(front: seq<byte>, b: byte)
    ensures ByteSum(front + [b]) == ByteSum(front) + b as int
    ensures Weighted(front + [b]) == Weighted(front) + ByteSum(front) + b as int
    decreases |front|
  {
    if front == [] {
      assert [] + [b] == [b];
    } else {
      assert (front + [b])[1..] == front[1..] + [b];
      OneMoreByte(front[1..], b);
      OnceMore(|front|, front[0] as int);
    }
  }

  lemma OnceMore(n: nat, x: nat)
    ensures (n + 1) * x == n * x + x
  {}

  lemma {:induction false} DeferredIs(s: Sums, data: seq<byte>)
    ensures Deferred(s, data) == Sums(s.s1 + ByteSum(data), s.s2 + |data| * s.s1 + Weighted(data))
    decreases |data|
  {
    if data != [] {
      hide ByteSum, Weighted;
      var front, b := data[..|data| - 1], data[|data| - 1];
      DeferredIs(s, front);
      OneMoreByte(front, b);
      assert data == front + [b];
      OnceMore(|front|, s.s1);
    }
  }

  /** The checksum in one formula: the two halves as sums over all bytes. */
  lemma ChecksumIs(s: Sums, data: seq<byte>)
    requires data != []
    ensures Checked(s, data).s1 == (s.s1 + ByteSum(data)) % ADLER_MOD
    ensures Checked(s, data).s2 == (s.s2 + |data| * s.s1 + Weighted(data)) % ADLER_MOD
  {
    hide Checked, Deferred;
    DeferredIsChecked(s, data);
    DeferredIs(s, data);
  }

  /** And of the packed checksum. */
  lemma HalvesAre(adler: nat, data: seq<byte>, r: nat)
    requires r == Packed(Checked(Unpacked(adler), data))
    ensures data == [] ==> r == adler
    ensures data != [] ==>
      && r % 0x1_0000 == (adler % 0x1_0000 + ByteSum(data)) % ADLER_MOD
      && r / 0x1_0000 == (adler / 0x1_0000 + |data| * (adler % 0x1_0000) + Weighted(data)) % ADLER_MOD
  {
    hide Checked;
    CheckedNothing(Unpacked(adler));
    if data != [] { ChecksumIs(Unpacked(adler), data); }
    var s := Checked(Unpacked(adler), data);
    if s.s1 < 0x1_0000 { Halves(s); }
  }

  lemma Halves(s: Sums)
    requires s.s1 < 0x1_0000
    ensures Packed(s) % 0x1_0000 == s.s1 && Packed(s) / 0x1_0000 == s.s2
  {}

  /** Triangular numbers: what `n` bytes of value 1 add up to, counted as the second sum does. */
  function Triangle(n: nat): nat {
    if n == 0 then 0 else Triangle(n - 1) + n
  }

  lemma {:induction false} TriangleIs(n: nat)
    ensures 2 * Triangle(n) == n * (n + 1)
  {
    if n > 0 {
      TriangleIs(n - 1);
      assert n * (n + 1) == (n - 1) * n + 2 * n;
    }
  }

  lemma {:induction false} DeferredBounds(s: Sums, data: seq<byte>)
    requires s.s1 < 0x1_0000 && s.s2 < 0x1_0000
    ensures Deferred(s, data).s1 <= 0xffff + 255 * |data|
    ensures Deferred(s, data).s2 <= 0xffff + 0xffff * |data| + 255 * Triangle(|data|)
    decreases |data|
  {
    if data != [] { DeferredBounds(s, data[..|data| - 1]); }
  }

  lemma {:induction false} TriangleGrows(m: nat, n: nat)
    requires m <= n
    ensures Triangle(m) <= Triangle(n)
  {
    if m < n { TriangleGrows(m, n - 1); }
  }

  /** Over a whole block neither sum reaches 2^32, whatever the seed and the bytes. */
  lemma BlockFits(s: Sums, data: seq<byte>)
    requires s.s1 < 0x1_0000 && s.s2 < 0x1_0000 && |data| <= BLOCK
    ensures Deferred(s, data).s1 < TWO_32 && Deferred(s, data).s2 < TWO_32
  {
    DeferredBounds(s, data);
    TriangleGrows(|data|, BLOCK);
    TriangleIs(BLOCK);
  }

  function Full(n: nat): (data: seq<byte>)
    ensures |data| == n
  {
    seq(n, _ => 0xff)
  }

  lemma {:induction false} FullSums(s: Sums, n: nat)
    ensures Deferred(s, Full(n)) == Sums(s.s1 + 255 * n, s.s2 + s.s1 * n + 255 * Triangle(n))
  {
    if n > 0 {
      FullSums(s, n - 1);
      assert Full(n)[..n - 1] == Full(n - 1);
      assert s.s1 * n == s.s1 * (n - 1) + s.s1;
    }
  }

  /** A block one byte longer would not be safe: bytes of 255 after the largest seed there is take the
      second sum to 2^32. */
  lemma LongerBlockWraps()
    ensures var s, data := Sums(ADLER_MOD - 1, ADLER_MOD - 1), Full(BLOCK + 1);
      Reduced(s) == s && |data| == BLOCK + 1 && Deferred(s, data).s2 >= TWO_32
  {
    FullSums(Sums(ADLER_MOD - 1, ADLER_MOD - 1), BLOCK + 1);
    TriangleIs(BLOCK + 1);
  }

  /** Addition in 32 bits. */
  function Add32(a: nat, b: nat): nat { (a + b) % TWO_32 }

  lemma {:induction false} SameSeed(s: Sums, t: Sums, data: seq<byte>)
    requires Reduced(s) == Reduced(t)
    ensures Reduced(Deferred(s, data)) == Reduced(Deferred(t, data))
    decreases |data|
  {
    if data != [] {
      var front, b := data[..|data| - 1], data[|data| - 1] as int;
      SameSeed(s, t, front);
      var d, c := Deferred(s, front), Deferred(t, front);
      SameRemainder(d.s1, c.s1, b);
      SameRemainders(d.s2, c.s2, d.s1 + b, c.s1 + b);
    }
  }

  /** One block more, with the sums known up to their remainders only. */
  lemma BlockChecked(seed: Sums, before: seq<byte>, block: seq<byte>, s: Sums)
    requires Reduced(s) == Reduced(Checked(seed, before))
    ensures Reduced(Deferred(s, block)) == Reduced(Checked(seed, before + block))
    ensures block != [] ==> Reduced(Deferred(s, block)) == Checked(seed, before + block)
  {
    CheckedConcat(seed, before, block);
    SameSeed(s, Checked(seed, before), block);
    DeferredIsChecked(Checked(seed, before), block);
  }

  lemma ReducedIs(s: Sums)
    ensures var r := Sums(s.s1 % ADLER_MOD, s.s2 % ADLER_MOD);
      r == Reduced(s) && Reduced(r) == r && r.s1 < ADLER_MOD && r.s2 < ADLER_MOD
  {
    Remaindered(s.s1);
    Remaindered(s.s2);
  }

  /** The checksum of the code is that of RFC 1950, for every seed and every length; it ends although
      the first block may be empty. */
  method Adler32(adler: nat, buffer: seq<byte>) returns (r: nat)
    requires adler < TWO_32
    ensures r == Packed(Checked(Unpacked(adler), buffer))
    ensures buffer == [] ==> r == adler
    ensures buffer != [] ==>
      && r % 0x1_0000 == (adler % 0x1_0000 + ByteSum(buffer)) % ADLER_MOD
      && r / 0x1_0000 == (adler / 0x1_0000 + |buffer| * (adler % 0x1_0000) + Weighted(buffer)) % ADLER_MOD
  {
    hide Checked, Deferred, Reduced, ByteSum, Weighted;
    var s := Unpacked(adler);
    CheckedNothing(s);
    var p, buflen := 0, |buffer|;
    var blocklen := buflen % BLOCK;
    while buflen > 0
      invariant 0 <= buflen && p + buflen == |buffer| && s.s1 < 0x1_0000 && s.s2 < 0x1_0000
      invariant Reduced(s) == Reduced(Checked(Unpacked(adler), buffer[..p]))
      invariant p > 0 || buflen == 0 ==> s == Checked(Unpacked(adler), buffer[..p])
      invariant if blocklen == BLOCK then buflen % BLOCK == 0 else p == 0 && blocklen == buflen % BLOCK
      decreases buflen, if blocklen == 0 then 1 else 0
    {
      ghost var block := buffer[p..p + blocklen];
      BlockChecked(Unpacked(adler), buffer[..p], block, s);
      assert buffer[..p] + block == buffer[..p + blocklen];
      s := SumBlock(s, buffer, p, blocklen);
      ReducedIs(s);
      s := Sums(s.s1 % ADLER_MOD, s.s2 % ADLER_MOD);
      p := p + blocklen;
      buflen := buflen - blocklen;
      blocklen := BLOCK;
    }
    assert buffer[..|buffer|] == buffer;
    r := s.s2 * 0x1_0000 + s.s1;
    HalvesAre(adler, buffer, r);
  }

  /** The two loops over one block: eight bytes at a time, then the rest. */
  method SumBlock(s0: Sums, buffer: seq<byte>, p: nat, blocklen: nat) returns (s: Sums)
    requires s0.s1 < 0x1_0000 && s0.s2 < 0x1_0000 && blocklen <= BLOCK && p + blocklen <= |buffer|
    ensures s == Deferred(s0, buffer[p..p + blocklen])
  {
    hide Deferred;
    s := s0;
    var i := 0;
    NothingDeferred(s0);
    assert buffer[p..p] == [];
    while i + 7 < blocklen
      invariant i <= blocklen && s == Deferred(s0, buffer[p..p + i])
    {
      s := AddByte(s0, s, buffer, p, i);
      s := AddByte(s0, s, buffer, p, i + 1);
      s := AddByte(s0, s, buffer, p, i + 2);
      s := AddByte(s0, s, buffer, p, i + 3);
      s := AddByte(s0, s, buffer, p, i + 4);
      s := AddByte(s0, s, buffer, p, i + 5);
      s := AddByte(s0, s, buffer, p, i + 6);
      s := AddByte(s0, s, buffer, p, i + 7);
      i := i + 8;
    }
    while i < blocklen
      invariant i <= blocklen && s == Deferred(s0, buffer[p..p + i])
    {
      s := AddByte(s0, s, buffer, p, i);
      i := i + 1;
    }
  }

  /** One byte, in 32-bit arithmetic that does not wrap. */
  method AddByte(ghost s0: Sums, s: Sums, buffer: seq<byte>, p: nat, i: nat) returns (t: Sums)
    requires s0.s1 < 0x1_0000 && s0.s2 < 0x1_0000 && i < BLOCK && p + i < |buffer|
    requires s == Deferred(s0, buffer[p..p + i])
    ensures t == Deferred(s0, buffer[p..p + i + 1])
  {
    ghost var data := buffer[p..p + i + 1];
    assert data[..|data| - 1] == buffer[p..p + i];
    BlockFits(s0, data);
    var s1 := Add32(s.s1, buffer[p + i] as int);
    t := Sums(s1, Add32(s.s2, s1));
  }
}
