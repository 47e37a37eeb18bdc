/** The decompressor: what its byte streams mean, and the loop that unpacks them in place. */
module Decompress {
  import opened Adler

  /** Memory from the start of the stream on; a stream does not carry its own end. */
  type Memory = nat -> byte

  function In2(m: Memory, x: nat): nat { m(x) as int * 0x100 + m(x + 1) as int }
  function In3(m: Memory, x: nat): nat { m(x) as int * 0x1_0000 + In2(m, x + 1) }
  function In4(m: Memory, x: nat): nat { m(x) as int * 0x100_0000 + In3(m, x + 1) }

  // ---------------------------------------------------------------- tokens

  /** The ways to say how far back and how long a match is, and how long a literal is. */
  datatype MatchForm = Near | Short | Far | FarLong | Farther | FartherLong
  datatype LiteralForm = Tiny | Small | Large

  datatype Token =
    | Match(form: MatchForm, dist: nat, len: nat)
    | Literal(lform: LiteralForm, bytes: seq<byte>)

  predicate Encodable(t: Token) {
    match t
    case Match(Near, dist, len) => 1 <= dist <= 0x100 && 1 <= len <= 0x80
    case Match(Short, dist, len) => 1 <= dist <= 0x4000 && 1 <= len <= 0x100
    case Match(Far, dist, len) => 1 <= dist <= 0x8_0000 && 1 <= len <= 0x100
    case Match(FarLong, dist, len) => 1 <= dist <= 0x8_0000 && 1 <= len <= 0x1_0000
    case Match(Farther, dist, len) => 1 <= dist <= 0x100_0000 && 1 <= len <= 0x100
    case Match(FartherLong, dist, len) => 1 <= dist <= 0x100_0000 && 1 <= len <= 0x1_0000
    case Literal(Tiny, bytes) => 1 <= |bytes| <= 0x20
    case Literal(Small, bytes) => 1 <= |bytes| <= 0x800
    case Literal(Large, bytes) => 1 <= |bytes| <= 0x1_0000
  }

  function Length(t: Token): nat {
    match t case Match(_, _, len) => len case Literal(_, bytes) => |bytes|
  }

  /** Byte by byte: a match may overlap what it writes. */
  function Repeated(out: seq<byte>, dist: nat, len: nat): (r: seq<byte>)
    requires 1 <= dist <= |out|
    ensures |r| == |out| + len && out <= r
    ensures forall k | |out| <= k < |r| :: r[k] == r[k - dist]
  {
    if len == 0 then out
    else
      var r := Repeated(out, dist, len - 1);
      r + [r[|r| - dist]]
  }

  predicate Meaningful(out: seq<byte>, t: Token) {
    t.Match? ==> 1 <= t.dist <= |out|
  }

  /** What a token adds. */
  function Apply(out: seq<byte>, t: Token): (r: seq<byte>)
    requires Meaningful(out, t)
    ensures |r| == |out| + Length(t)
  {
    match t
    case Match(_, dist, len) => Repeated(out, dist, len)
    case Literal(_, bytes) => out + bytes
  }

  // ---------------------------------------------------------------- bytes

  function B(x: nat): byte { (x % 0x100) as byte }

  function Two(x: nat): (r: seq<byte>)
    ensures |r| == 2
  {
    [B(x / 0x100), B(x)]
  }

  function Three(x: nat): (r: seq<byte>)
    ensures |r| == 3
  {
    [B(x / 0x1_0000), B(x / 0x100), B(x)]
  }

  function Four(x: nat): (r: seq<byte>)
    ensures |r| == 4
  {
    [B(x / 0x100_0000)] + Three(x)
  }

  /** The bytes of a token. */
  function Encoded(t: Token): (r: seq<byte>)
    requires Encodable(t)
    ensures |r| > 0
  {
    match t
    case Match(Near, dist, len) => [B(0x80 + len - 1), B(dist - 1)]
    case Match(Short, dist, len) => Two(0x4000 + dist - 1) + [B(len - 1)]
    case Match(Far, dist, len) => Three(0x18_0000 + dist - 1) + [B(len - 1)]
    case Match(FarLong, dist, len) => Three(0x10_0000 + dist - 1) + Two(len - 1)
    case Match(Farther, dist, len) => [0x06] + Three(dist - 1) + [B(len - 1)]
    case Match(FartherLong, dist, len) => [0x04] + Three(dist - 1) + Two(len - 1)
    case Literal(Tiny, bytes) => [B(0x20 + |bytes| - 1)] + bytes
    case Literal(Small, bytes) => Two(0x0800 + |bytes| - 1) + bytes
    case Literal(Large, bytes) => [0x07] + Two(|bytes| - 1) + bytes
  }

  predicate Holds(m: Memory, p: nat, bytes: seq<byte>) {
    forall k: nat | k < |bytes| :: m(p + k) == bytes[k]
  }

  function Read(m: Memory, p: nat, n: nat): (r: seq<byte>)
    ensures |r| == n && Holds(m, p, r)
  {
    seq(n, k requires 0 <= k < n => m(p + k))
  }

  /** A token read off memory, with the number of bytes it takes. */
  datatype Reading = NoToken | Got(token: Token, size: nat)

  /** The order of the tests is that of the code. */
  function TokenAt(m: Memory, p: nat): (r: Reading)
    ensures r.Got? ==> Length(r.token) > 0 && r.size > 0
  {
    var b := m(p) as int;
    if b >= 0x20 then
      if b >= 0x80 then Got(Match(Near, m(p + 1) as int + 1, b - 0x80 + 1), 2)
      else if b >= 0x40 then Got(Match(Short, In2(m, p) - 0x4000 + 1, m(p + 2) as int + 1), 3)
      else Got(Literal(Tiny, Read(m, p + 1, b - 0x20 + 1)), 1 + (b - 0x20 + 1))
    else
      if b >= 0x18 then Got(Match(Far, In3(m, p) - 0x18_0000 + 1, m(p + 3) as int + 1), 4)
      else if b >= 0x10 then Got(Match(FarLong, In3(m, p) - 0x10_0000 + 1, In2(m, p + 3) + 1), 5)
      else if b >= 0x08 then Got(Literal(Small, Read(m, p + 2, In2(m, p) - 0x0800 + 1)), 2 + (In2(m, p) - 0x0800 + 1))
      else if b == 0x07 then Got(Literal(Large, Read(m, p + 3, In2(m, p + 1) + 1)), 3 + (In2(m, p + 1) + 1))
      else if b == 0x06 then Got(Match(Farther, In3(m, p + 1) + 1, m(p + 4) as int + 1), 5)
      else if b == 0x04 then Got(Match(FartherLong, In3(m, p + 1) + 1, In2(m, p + 4) + 1), 6)
      else NoToken
  }

  // ---------------------------------------------------------------- reading is writing backwards

  lemma TwoIs(m: Memory, x: nat)
    ensures In2(m, x) < 0x1_0000 && Two(In2(m, x)) == [m(x), m(x + 1)]
    ensures m(x) as int * 0x100 <= In2(m, x) < m(x) as int * 0x100 + 0x100
  {}

  lemma ThreeIs(m: Memory, x: nat)
    ensures In3(m, x) < 0x100_0000 && Three(In3(m, x)) == [m(x), m(x + 1), m(x + 2)]
    ensures m(x) as int * 0x1_0000 <= In3(m, x) < m(x) as int * 0x1_0000 + 0x1_0000
  {
    TwoIs(m, x + 1);
    HighByte(m(x), In2(m, x + 1));
  }

  lemma HighByte(b: byte, x: nat)
    requires x < 0x1_0000
    ensures var y := b as int * 0x1_0000 + x; B(y / 0x1_0000) == b && B(y / 0x100) == B(x / 0x100) && B(y) == B(x)
  {
    var y := b as int * 0x1_0000 + x;
    assert y / 0x100 == b as int * 0x100 + x / 0x100;
  }

  lemma TwoBack(m: Memory, p: nat, x: nat)
    requires x < 0x1_0000 && m(p) == Two(x)[0] && m(p + 1) == Two(x)[1]
    ensures In2(m, p) == x
  {}

  lemma ThreeBack(m: Memory, p: nat, x: nat)
    requires x < 0x100_0000 && m(p) == Three(x)[0] && m(p + 1) == Three(x)[1] && m(p + 2) == Three(x)[2]
    ensures In3(m, p) == x
  {
    assert x / 0x100 == (x / 0x1_0000) * 0x100 + (x / 0x100) % 0x100;
  }

  /** The four bytes at `x`, and no others, are those of the number read there. */
  lemma FourIs(m: Memory, p: nat, x: nat)
    requires x < 0x1_0000_0000
    ensures In4(m, p) < 0x1_0000_0000
    ensures In4(m, p) == x <==> Holds(m, p, Four(x))
  {
    hide Three;
    ThreeIs(m, p + 1);
    var low := x % 0x100_0000;
    LowThree(x, low);
    if In4(m, p) == x {
      assert x / 0x100_0000 == m(p) as int && low == In3(m, p + 1);
    }
    if Holds(m, p, Four(x)) {
      assert m(p) == Four(x)[0];
      forall k | 0 <= k < 3 ensures m(p + 1 + k) == Three(x)[k] { HoldsAt(m, p, Four(x), 1 + k); }
      ThreeBack(m, p + 1, low);
    }
  }

  lemma FourRead(m: Memory, p: nat)
    ensures In4(m, p) < 0x1_0000_0000 && Holds(m, p, Four(In4(m, p)))
  {
    hide In4, Four;
    FourIs(m, p, 0);
    FourIs(m, p, In4(m, p));
  }

  lemma LowThree(x: nat, low: nat)
    requires x < 0x1_0000_0000 && low == x % 0x100_0000
    ensures Three(x) == Three(low) && x == B(x / 0x100_0000) as int * 0x100_0000 + low
  {
    hide B;
    var b := x / 0x100_0000;
    LowBytes(b, low);
    OneBack(b);
  }

  lemma LowBytes(b: nat, low: nat)
    ensures var x := b * 0x100_0000 + low; B(x) == B(low)
    ensures var x := b * 0x100_0000 + low; B(x / 0x100) == B(low / 0x100)
    ensures var x := b * 0x100_0000 + low; B(x / 0x1_0000) == B(low / 0x1_0000)
  {
    hide B;
    Drop(b * 0x1_0000, low);
    Drop(b * 0x100, low / 0x100);
    Drop(b, low / 0x100 / 0x100);
    DropTwo(b * 0x100_0000 + low);
    DropTwo(low);
  }

  lemma Drop(c: nat, y: nat)
    ensures (c * 0x100 + y) / 0x100 == c + y / 0x100 && B(c * 0x100 + y) == B(y)
  {}

  lemma DropTwo(x: nat)
    ensures x / 0x100 / 0x100 == x / 0x1_0000
  {}

  lemma OneBack(x: nat)
    requires x < 0x100
    ensures B(x) as int == x
  {}

  lemma OneIs(b: byte)
    ensures B(b as int) == b
  {}

  lemma ReadNear(m: Memory, p: nat)
    requires m(p) as int >= 0x80
    ensures var t := Match(Near, m(p + 1) as int + 1, m(p) as int - 0x80 + 1);
      Encodable(t) && Holds(m, p, Encoded(t)) && |Encoded(t)| == 2
  {
    OneIs(m(p));
    OneIs(m(p + 1));
  }

  lemma ReadShort(m: Memory, p: nat)
    requires 0x40 <= m(p) as int < 0x80
    ensures In2(m, p) >= 0x4000
    ensures var t := Match(Short, In2(m, p) - 0x4000 + 1, m(p + 2) as int + 1);
      Encodable(t) && Holds(m, p, Encoded(t)) && |Encoded(t)| == 3
  {
    hide In2, Two, B;
    TwoIs(m, p);
    OneIs(m(p + 2));
  }

  lemma ReadTiny(m: Memory, p: nat)
    requires 0x20 <= m(p) as int < 0x40
    ensures var t := Literal(Tiny, Read(m, p + 1, m(p) as int - 0x20 + 1));
      Encodable(t) && Holds(m, p, Encoded(t)) && |Encoded(t)| == 1 + Length(t)
  {
    hide B;
    OneIs(m(p));
  }

  lemma ReadFar(m: Memory, p: nat)
    requires 0x18 <= m(p) as int < 0x20
    ensures In3(m, p) >= 0x18_0000
    ensures var t := Match(Far, In3(m, p) - 0x18_0000 + 1, m(p + 3) as int + 1);
      Encodable(t) && Holds(m, p, Encoded(t)) && |Encoded(t)| == 4
  {
    hide In3, Three, B;
    ThreeIs(m, p);
    OneIs(m(p + 3));
  }

  lemma ReadFarLong(m: Memory, p: nat)
    requires 0x10 <= m(p) as int < 0x18
    ensures In3(m, p) >= 0x10_0000
    ensures var t := Match(FarLong, In3(m, p) - 0x10_0000 + 1, In2(m, p + 3) + 1);
      Encodable(t) && Holds(m, p, Encoded(t)) && |Encoded(t)| == 5
  {
    hide In2, In3, Two, Three, B;
    ThreeIs(m, p);
    TwoIs(m, p + 3);
  }

  lemma ReadSmall(m: Memory, p: nat)
    requires 0x08 <= m(p) as int < 0x10
    ensures In2(m, p) >= 0x0800
    ensures var t := Literal(Small, Read(m, p + 2, In2(m, p) - 0x0800 + 1));
      Encodable(t) && Holds(m, p, Encoded(t)) && |Encoded(t)| == 2 + Length(t)
  {
    hide In2, Two, B;
    TwoIs(m, p);
  }

  lemma ReadLarge(m: Memory, p: nat)
    requires m(p) as int == 0x07
    ensures var t := Literal(Large, Read(m, p + 3, In2(m, p + 1) + 1));
      Encodable(t) && Holds(m, p, Encoded(t)) && |Encoded(t)| == 3 + Length(t)
  {
    hide In2, Two, B;
    TwoIs(m, p + 1);
  }

  lemma ReadFarther(m: Memory, p: nat)
    requires m(p) as int == 0x06
    ensures var t := Match(Farther, In3(m, p + 1) + 1, m(p + 4) as int + 1);
      Encodable(t) && Holds(m, p, Encoded(t)) && |Encoded(t)| == 5
  {
    hide In3, Three, B;
    ThreeIs(m, p + 1);
    OneIs(m(p + 4));
  }

  lemma ReadFartherLong(m: Memory, p: nat)
    requires m(p) as int == 0x04
    ensures var t := Match(FartherLong, In3(m, p + 1) + 1, In2(m, p + 4) + 1);
      Encodable(t) && Holds(m, p, Encoded(t)) && |Encoded(t)| == 6
  {
    hide In2, In3, Two, Three, B;
    ThreeIs(m, p + 1);
    TwoIs(m, p + 4);
  }

  /** A token that has been read is one that can be written, and memory holds its bytes. */
  lemma ReadingIsEncoding(m: Memory, p: nat)
    requires TokenAt(m, p).Got?
    ensures var (t, n) := (TokenAt(m, p).token, TokenAt(m, p).size);
      Encodable(t) && Holds(m, p, Encoded(t)) && n == |Encoded(t)|
  {
    hide Encodable, Encoded, Holds, In2, In3;
    var b := m(p) as int;
    if b >= 0x80 { ReadNear(m, p); }
    else if b >= 0x40 { ReadShort(m, p); }
    else if b >= 0x20 { ReadTiny(m, p); }
    else if b >= 0x18 { ReadFar(m, p); }
    else if b >= 0x10 { ReadFarLong(m, p); }
    else if b >= 0x08 { ReadSmall(m, p); }
    else if b == 0x07 { ReadLarge(m, p); }
    else if b == 0x06 { ReadFarther(m, p); }
    else { ReadFartherLong(m, p); }
  }

  /** And a token that has been written is read back. */
  lemma EncodingIsReading(m: Memory, p: nat, t: Token)
    requires Encodable(t) && Holds(m, p, Encoded(t))
    ensures TokenAt(m, p) == Got(t, |Encoded(t)|)
  {
    match t
    case Match(_, _, _) => MatchIsRead(m, p, t);
    case Literal(_, _) => LiteralIsRead(m, p, t);
  }

  lemma HoldsAt(m: Memory, p: nat, bytes: seq<byte>, k: nat)
    requires Holds(m, p, bytes) && k < |bytes|
    ensures m(p + k) == bytes[k]
  {}

  lemma MatchIsRead(m: Memory, p: nat, t: Token)
    requires Encodable(t) && Holds(m, p, Encoded(t)) && t.Match?
    ensures TokenAt(m, p) == Got(t, |Encoded(t)|)
  {
    hide Two, Three, B, In2, In3;
    var e, dist, len := Encoded(t), t.dist, t.len;
    HoldsAt(m, p, e, 0);
    HoldsAt(m, p, e, 1);
    match t.form
    case Near =>
      OneBack(0x80 + len - 1);
      OneBack(dist - 1);
    case Short =>
      HoldsAt(m, p, e, 2);
      TwoBack(m, p, 0x4000 + dist - 1);
      TwoIs(m, p);
      OneBack(len - 1);
    case Far =>
      HoldsAt(m, p, e, 2);
      HoldsAt(m, p, e, 3);
      ThreeBack(m, p, 0x18_0000 + dist - 1);
      ThreeIs(m, p);
      OneBack(len - 1);
    case FarLong =>
      HoldsAt(m, p, e, 2);
      HoldsAt(m, p, e, 3);
      HoldsAt(m, p, e, 4);
      ThreeBack(m, p, 0x10_0000 + dist - 1);
      ThreeIs(m, p);
      TwoBack(m, p + 3, len - 1);
    case Farther =>
      HoldsAt(m, p, e, 2);
      HoldsAt(m, p, e, 3);
      HoldsAt(m, p, e, 4);
      ThreeBack(m, p + 1, dist - 1);
      OneBack(len - 1);
    case FartherLong =>
      HoldsAt(m, p, e, 2);
      HoldsAt(m, p, e, 3);
      HoldsAt(m, p, e, 4);
      HoldsAt(m, p, e, 5);
      ThreeBack(m, p + 1, dist - 1);
      TwoBack(m, p + 4, len - 1);
  }

  lemma LiteralIsRead(m: Memory, p: nat, t: Token)
    requires Encodable(t) && Holds(m, p, Encoded(t)) && t.Literal?
    ensures TokenAt(m, p) == Got(t, |Encoded(t)|)
  {
    hide Two, B, In2;
    var e, bytes := Encoded(t), t.bytes;
    HoldsAt(m, p, e, 0);
    match t.lform
    case Tiny =>
      OneBack(0x20 + |bytes| - 1);
      LiteralBack(m, p, e, 1, bytes);
    case Small =>
      HoldsAt(m, p, e, 1);
      TwoBack(m, p, 0x0800 + |bytes| - 1);
      TwoIs(m, p);
      LiteralBack(m, p, e, 2, bytes);
    case Large =>
      HoldsAt(m, p, e, 1);
      HoldsAt(m, p, e, 2);
      TwoBack(m, p + 1, |bytes| - 1);
      LiteralBack(m, p, e, 3, bytes);
  }

  lemma LiteralBack(m: Memory, p: nat, e: seq<byte>, n: nat, bytes: seq<byte>)
    requires Holds(m, p, e) && n <= |e| && e[n..] == bytes
    ensures Read(m, p + n, |bytes|) == bytes
  {
    forall k: nat | k < |bytes| ensures Read(m, p + n, |bytes|)[k] == bytes[k] {
      HoldsAt(m, p, e, n + k);
    }
  }

  // ---------------------------------------------------------------- whole streams

  datatype Outcome = Failed | Unpacked(out: seq<byte>)

  /** What stands behind the tokens: the end mark and the checksum, the second sum first. */
  function Trailer(out: seq<byte>): (r: seq<byte>)
    ensures |r| == 6
  {
    var s := Checked(Sums(1, 0), out);
    [0x05, 0xfa] + Two(s.s2) + Two(s.s1)
  }

  /** At the end of the tokens: the end mark, the right length and the right checksum. */
  predicate Ends(m: Memory, p: nat, out: seq<byte>, olen: nat) {
    |out| == olen && Holds(m, p, Trailer(out))
  }

  /** The test that the code makes there. */
  lemma EndsIs(m: Memory, p: nat, out: seq<byte>)
    ensures Holds(m, p, Trailer(out)) <==>
      m(p) == 0x05 && m(p + 1) == 0xfa && Packed(Checked(Adler.Unpacked(1), out)) == In4(m, p + 2)
  {
    hide Checked, In4, Two, Four, Holds;
    var s := Checked(Sums(1, 0), out);
    CheckedSmall(Sums(1, 0), out);
    FourIs(m, p + 2, Packed(s));
    PackedBytes(s);
    assert Trailer(out) == [0x05, 0xfa] + Four(Packed(s));
    HoldsSplit(m, p, [0x05, 0xfa], Four(Packed(s)));
    HoldsMark(m, p);
  }

  lemma HoldsMark(m: Memory, p: nat)
    ensures Holds(m, p, [0x05, 0xfa]) <==> m(p) == 0x05 && m(p + 1) == 0xfa
  {
    var mark: seq<byte> := [0x05, 0xfa];
    if Holds(m, p, mark) {
      HoldsAt(m, p, mark, 0);
      HoldsAt(m, p, mark, 1);
    }
  }

  lemma PackedBytes(s: Sums)
    requires s.s1 < 0x1_0000 && s.s2 < 0x1_0000
    ensures Four(Packed(s)) == Two(s.s2) + Two(s.s1)
  {
    var x := Packed(s);
    assert x / 0x100 == s.s2 * 0x100 + s.s1 / 0x100;
    assert x / 0x1_0000 == s.s2;
    assert x / 0x100_0000 == s.s2 / 0x100;
  }

  /** The loop: every token adds something, so that it ends for whatever memory holds. */
  function Unpack(m: Memory, p: nat, out: seq<byte>, olen: nat): Outcome
    requires |out| <= olen
    decreases olen - |out|
  {
    match TokenAt(m, p)
    case NoToken => if Ends(m, p, out, olen) then Outcome.Unpacked(out) else Failed
    case Got(t, n) =>
      if |out| + Length(t) > olen || !Meaningful(out, t) then Failed
      else Unpack(m, p + n, Apply(out, t), olen)
  }

  /** The length the stream gives for its output: the four bytes at 8, the highest first. */
  function DecompressLength(m: Memory): (r: nat)
    ensures r < 0x1_0000_0000 && Holds(m, 8, Four(r))
  {
    FourRead(m, 8);
    In4(m, 8)
  }

  /** What the call makes of a stream. */
  function Decompressed(m: Memory): Outcome {
    if In4(m, 0) != 0x57bC_0000 || In4(m, 4) != 0 then Failed else Unpack(m, 16, [], DecompressLength(m))
  }

  function EncodedAll(ts: seq<Token>): seq<byte>
    requires forall t | t in ts :: Encodable(t)
  {
    if ts == [] then [] else Encoded(ts[0]) + EncodedAll(ts[1..])
  }

  predicate AllMeaningful(out: seq<byte>, ts: seq<Token>)
    decreases |ts|
  {
    ts != [] ==> Meaningful(out, ts[0]) && AllMeaningful(Apply(out, ts[0]), ts[1..])
  }

  /** What a list of tokens means. */
  function Meaning(out: seq<byte>, ts: seq<Token>): seq<byte>
    requires AllMeaningful(out, ts)
    decreases |ts|
  {
    if ts == [] then out else Meaning(Apply(out, ts[0]), ts[1..])
  }

  lemma HoldsSplit(m: Memory, p: nat, a: seq<byte>, b: seq<byte>)
    ensures Holds(m, p, a + b) <==> Holds(m, p, a) && Holds(m, p + |a|, b)
  {
    if Holds(m, p, a + b) {
      forall k: nat | k < |a| ensures m(p + k) == a[k] { assert (a + b)[k] == a[k]; }
      forall k: nat | k < |b| ensures m(p + |a| + k) == b[k] {
        assert (a + b)[|a| + k] == b[k];
        HoldsAt(m, p, a + b, |a| + k);
      }
    }
    if Holds(m, p, a) && Holds(m, p + |a|, b) {
      forall k: nat | k < |a + b| ensures m(p + k) == (a + b)[k] {
        if k >= |a| { HoldsAt(m, p + |a|, b, k - |a|); }
      }
    }
  }

  /** The list that starts with `t`. */
  lemma OneMoreToken(out: seq<byte>, t: Token, rest: seq<Token>, ts: seq<Token>)
    requires ts == [t] + rest && Encodable(t) && forall u | u in rest :: Encodable(u)
    ensures forall u | u in ts :: Encodable(u)
    ensures EncodedAll(ts) == Encoded(t) + EncodedAll(rest)
    ensures AllMeaningful(out, ts) <==> Meaningful(out, t) && AllMeaningful(Apply(out, t), rest)
    ensures AllMeaningful(out, ts) ==> Meaning(out, ts) == Meaning(Apply(out, t), rest)
  {
    hide Encoded, Encodable, Apply, Meaningful;
    assert ts[1..] == rest;
  }

  /** One step of the loop. */
  lemma UnpackStep(m: Memory, p: nat, out: seq<byte>, olen: nat, t: Token, n: nat)
    requires |out| <= olen && TokenAt(m, p) == Got(t, n)
    ensures |out| + Length(t) <= olen && Meaningful(out, t) ==>
      |Apply(out, t)| <= olen && Unpack(m, p, out, olen) == Unpack(m, p + n, Apply(out, t), olen)
    ensures !(|out| + Length(t) <= olen && Meaningful(out, t)) ==> Unpack(m, p, out, olen) == Failed
  {
    hide TokenAt, Ends;
  }

  /** Unpacking the encoding of a list of tokens gives what the list means, when the length and the
      checksum in the stream are the right ones. */
  lemma {:induction false} UnpackEncoded(m: Memory, p: nat, out: seq<byte>, olen: nat, ts: seq<Token>)
    requires forall t | t in ts :: Encodable(t)
    requires Holds(m, p, EncodedAll(ts)) && AllMeaningful(out, ts)
    requires Ends(m, p + |EncodedAll(ts)|, Meaning(out, ts), olen)
    ensures |out| <= olen && Unpack(m, p, out, olen) == Outcome.Unpacked(Meaning(out, ts))
    decreases |ts|
  {
    hide Encoded, Encodable, TokenAt, Apply, Meaningful, Unpack, Meaning, AllMeaningful, EncodedAll, Holds, Ends;
    if ts == [] {
      EndOfTokens(m, p, out, olen);
    } else {
      var t, rest := ts[0], ts[1..];
      OneMoreToken(out, t, rest, ts);
      HoldsSplit(m, p, Encoded(t), EncodedAll(rest));
      EncodingIsReading(m, p, t);
      UnpackEncoded(m, p + |Encoded(t)|, Apply(out, t), olen, rest);
      ApplyLonger(out, t);
      UnpackStep(m, p, out, olen, t, |Encoded(t)|);
    }
  }

  lemma EndOfTokens(m: Memory, p: nat, out: seq<byte>, olen: nat)
    requires AllMeaningful(out, []) && Ends(m, p + |EncodedAll([])|, Meaning(out, []), olen)
    ensures |out| <= olen && Unpack(m, p, out, olen) == Outcome.Unpacked(Meaning(out, []))
  {
    HoldsAt(m, p, Trailer(out), 0);
    EndIsNoToken(m, p);
  }

  lemma EndIsNoToken(m: Memory, p: nat)
    requires m(p) == 0x05
    ensures TokenAt(m, p) == NoToken
  {}

  lemma ApplyLonger(out: seq<byte>, t: Token)
    requires Encodable(t) && Meaningful(out, t)
    ensures |Apply(out, t)| == |out| + Length(t) > |out|
  {
    hide Repeated;
  }

  /** A stream is accepted only if it is the encoding of a list of tokens that means the output. */
  lemma {:induction false} UnpackedWasEncoded(m: Memory, p: nat, out: seq<byte>, olen: nat) returns (ts: seq<Token>)
    requires |out| <= olen && Unpack(m, p, out, olen).Unpacked?
    ensures forall t | t in ts :: Encodable(t)
    ensures Holds(m, p, EncodedAll(ts)) && AllMeaningful(out, ts)
    ensures Unpack(m, p, out, olen).out == Meaning(out, ts) && Ends(m, p + |EncodedAll(ts)|, Meaning(out, ts), olen)
    decreases olen - |out|
  {
    hide Encoded, Encodable, TokenAt, Apply, Meaningful, Unpack, Meaning, AllMeaningful, EncodedAll, Holds, Ends;
    match TokenAt(m, p)
    case NoToken =>
      ts := [];
      NoMoreTokens(m, p, out, olen);
    case Got(t, n) =>
      UnpackStep(m, p, out, olen, t, n);
      ReadingIsEncoding(m, p);
      var rest := UnpackedWasEncoded(m, p + n, Apply(out, t), olen);
      ts := [t] + rest;
      OneMoreToken(out, t, rest, ts);
      HoldsSplit(m, p, Encoded(t), EncodedAll(rest));
  }

  lemma NoMoreTokens(m: Memory, p: nat, out: seq<byte>, olen: nat)
    requires |out| <= olen && TokenAt(m, p) == NoToken && Unpack(m, p, out, olen).Unpacked?
    ensures Holds(m, p, EncodedAll([])) && AllMeaningful(out, []) && Meaning(out, []) == out
    ensures Unpack(m, p, out, olen).out == out && Ends(m, p + |EncodedAll([])|, out, olen)
  {}

  const SIGNATURE: seq<byte> := [0x57, 0xbc, 0, 0, 0, 0, 0, 0]

  /** Memory holds a stream, byte by byte: the signature, the length of the output with the highest byte
      first, four bytes that are not looked at, the tokens, the end mark and the checksum. */
  ghost predicate StreamOf(m: Memory, ts: seq<Token>) {
    && (forall t | t in ts :: Encodable(t)) && AllMeaningful([], ts)
    && var out := Meaning([], ts);
       && |out| < 0x1_0000_0000
       && Holds(m, 0, SIGNATURE + Four(|out|))
       && Holds(m, 16, EncodedAll(ts) + Trailer(out))
  }

  lemma HeaderIs(m: Memory, n: nat)
    requires n < 0x1_0000_0000
    ensures Holds(m, 0, SIGNATURE + Four(n)) <==>
      In4(m, 0) == 0x57bC_0000 && In4(m, 4) == 0 && DecompressLength(m) == n
  {
    hide In4, Four, Holds, DecompressLength;
    FourIs(m, 0, 0x57bC_0000);
    FourIs(m, 4, 0);
    assert SIGNATURE == Four(0x57bC_0000) + Four(0) by { SignatureIs(); }
    HoldsSplit(m, 0, SIGNATURE, Four(n));
    HoldsSplit(m, 0, Four(0x57bC_0000), Four(0));
    LengthIs(m, n);
  }

  lemma SignatureIs()
    ensures SIGNATURE == Four(0x57bC_0000) + Four(0)
  {}

  lemma LengthIs(m: Memory, n: nat)
    requires n < 0x1_0000_0000
    ensures DecompressLength(m) == n <==> Holds(m, 8, Four(n))
  {
    FourIs(m, 8, n);
  }

  /** A stream in terms of the tests that the code makes. */
  lemma StreamIs(m: Memory, ts: seq<Token>)
    requires (forall t | t in ts :: Encodable(t)) && AllMeaningful([], ts)
    ensures StreamOf(m, ts) <==>
      && In4(m, 0) == 0x57bC_0000 && In4(m, 4) == 0
      && Holds(m, 16, EncodedAll(ts))
      && Ends(m, 16 + |EncodedAll(ts)|, Meaning([], ts), DecompressLength(m))
  {
    hide In4, Holds, Four, Trailer, DecompressLength, EncodedAll, Meaning, AllMeaningful;
    var out := Meaning([], ts);
    if |out| < 0x1_0000_0000 {
      HeaderIs(m, |out|);
    }
    HoldsSplit(m, 16, EncodedAll(ts), Trailer(out));
  }

  /** The decompressor is the inverse of the encoding: it accepts exactly the streams of token lists,
      and gives what they mean. */
  lemma AcceptedExactly(m: Memory)
    ensures Decompressed(m).Unpacked? <==> exists ts :: StreamOf(m, ts)
    ensures forall ts | StreamOf(m, ts) :: Decompressed(m) == Outcome.Unpacked(Meaning([], ts))
  {
    hide Unpack, In4, Ends, Holds, Four, Trailer, DecompressLength, EncodedAll;
    if Decompressed(m).Unpacked? {
      var ts := UnpackedWasEncoded(m, 16, [], DecompressLength(m));
      StreamIs(m, ts);
    }
    forall ts | StreamOf(m, ts) ensures Decompressed(m) == Outcome.Unpacked(Meaning([], ts)) {
      StreamIs(m, ts);
      UnpackEncoded(m, 16, [], DecompressLength(m), ts);
    }
  }

  // ---------------------------------------------------------------- in place

  /** The effect of a token on the output: too long or out of reach, the position ends up beyond `olen`. */
  predicate Took(before: seq<byte>, t: Token, olen: nat, output: seq<byte>, dout: nat) {
    if |before| + Length(t) > olen || !Meaningful(before, t) then dout > olen
    else dout == |before| + Length(t) <= |output| && output[..dout] == Apply(before, t)
  }

  /** Copies from the output itself, each byte before the next. */
  method CopyMatch(output: array<byte>, dout0: nat, dist: nat, len: nat, olen: nat) returns (dout: nat)
    requires dout0 <= olen <= output.Length && dist > 0 && len > 0
    modifies output
    ensures forall form :: Took(old(output[..dout0]), Match(form, dist, len), olen, output[..], dout)
  {
    var data := dout0 - dist;
    dout := dout0;
    if dout + len > olen {
      return dout + len;
    }
    if data < 0 {
      return olen + 1;
    }
    ghost var before := output[..dout0];
    for k := 0 to len
      invariant dout == dout0 + k && data == dout - dist
      invariant output[..dout] == Repeated(before, dist, k)
    {
      output[dout] := output[data];
      assert output[..dout + 1] == output[..dout] + [output[dout]];
      dout := dout + 1;
      data := data + 1;
    }
    assert output[..dout] == output[..][..dout];
  }

  /** Copies from the stream. */
  method CopyLiteral(output: array<byte>, dout0: nat, input: Memory, p: nat, len: nat, olen: nat) returns (dout: nat)
    requires dout0 <= olen <= output.Length && len > 0
    modifies output
    ensures forall lform :: Took(old(output[..dout0]), Literal(lform, Read(input, p, len)), olen, output[..], dout)
  {
    dout := dout0;
    if dout + len > olen {
      return dout + len;
    }
    ghost var before := output[..dout0];
    forall k | 0 <= k < len { output[dout0 + k] := input(p + k); }
    dout := dout0 + len;
    assert output[..dout] == before + Read(input, p, len);
    assert output[..dout] == output[..][..dout];
  }

  /** One token: returns the position behind it, which is where it was if there is none. */
  method DecompressToken(output: array<byte>, input: Memory, i: nat, dout0: nat, olen: nat)
    returns (next: nat, dout: nat)
    requires dout0 <= olen <= output.Length
    modifies output
    ensures match TokenAt(input, i)
      case NoToken => next == i && dout == dout0 && output[..] == old(output[..])
      case Got(t, n) => next == i + n && Took(old(output[..dout0]), t, olen, output[..], dout)
  {
    hide Took, In2, In3, Read;
    ReadingIsEncodingSizes(input, i);
    next, dout := i, dout0;
    var b := input(i) as int;
    if b >= 0x20 {
      if b >= 0x80 {
        dout := CopyMatch(output, dout0, input(i + 1) as int + 1, b - 0x80 + 1, olen);
        next := i + 2;
      } else if b >= 0x40 {
        dout := CopyMatch(output, dout0, In2(input, i) - 0x4000 + 1, input(i + 2) as int + 1, olen);
        next := i + 3;
      } else {
        dout := CopyLiteral(output, dout0, input, i + 1, b - 0x20 + 1, olen);
        next := i + 1 + (b - 0x20 + 1);
      }
    } else {
      if b >= 0x18 {
        dout := CopyMatch(output, dout0, In3(input, i) - 0x18_0000 + 1, input(i + 3) as int + 1, olen);
        next := i + 4;
      } else if b >= 0x10 {
        dout := CopyMatch(output, dout0, In3(input, i) - 0x10_0000 + 1, In2(input, i + 3) + 1, olen);
        next := i + 5;
      } else if b >= 0x08 {
        dout := CopyLiteral(output, dout0, input, i + 2, In2(input, i) - 0x0800 + 1, olen);
        next := i + 2 + (In2(input, i) - 0x0800 + 1);
      } else if b == 0x07 {
        dout := CopyLiteral(output, dout0, input, i + 3, In2(input, i + 1) + 1, olen);
        next := i + 3 + (In2(input, i + 1) + 1);
      } else if b == 0x06 {
        dout := CopyMatch(output, dout0, In3(input, i + 1) + 1, input(i + 4) as int + 1, olen);
        next := i + 5;
      } else if b == 0x04 {
        dout := CopyMatch(output, dout0, In3(input, i + 1) + 1, In2(input, i + 4) + 1, olen);
        next := i + 6;
      }
    }
  }

  lemma ReadingIsEncodingSizes(m: Memory, p: nat)
    ensures 0x40 <= m(p) as int < 0x80 ==> In2(m, p) >= 0x4000
    ensures 0x08 <= m(p) as int < 0x10 ==> In2(m, p) >= 0x0800
    ensures 0x18 <= m(p) as int < 0x20 ==> In3(m, p) >= 0x18_0000
    ensures 0x10 <= m(p) as int < 0x18 ==> In3(m, p) >= 0x10_0000
  {}

  /** Unpacks a stream into `output`, which the caller has made as long as the stream says; 0 means it was
      not accepted. */
  method Decompress(output: array<byte>, input: Memory) returns (r: nat)
    requires DecompressLength(input) <= output.Length
    modifies output
    ensures forall ts | StreamOf(input, ts) :: r == |Meaning([], ts)| <= output.Length && output[..r] == Meaning([], ts)
    ensures (forall ts :: !StreamOf(input, ts)) ==> r == 0
  {
    hide TokenAt, In4, Took, Apply, Checked, Holds, DecompressLength, Trailer, StreamOf, Meaning;
    AcceptedExactly(input);
    if In4(input, 0) != 0x57bC_0000 {
      return 0;
    }
    if In4(input, 4) != 0 {
      return 0;
    }
    var olen := DecompressLength(input);
    var i, dout := 16, 0;
    while true
      invariant dout <= olen && Unpack(input, i, output[..dout], olen) == Unpack(input, 16, [], olen)
      decreases olen - dout
    {
      var oldI, oldDout := i, dout;
      ghost var before := output[..dout];
      i, dout := DecompressToken(output, input, i, dout, olen);
      if i == oldI {
        assert output[..dout] == output[..][..dout] == before;
        EndsIs(input, i, before);
        if input(i) == 0x05 && input(i + 1) == 0xfa {
          if dout != olen {
            return 0;
          }
          var sum := Adler32(1, output[..olen]);
          if sum != In4(input, i + 2) {
            return 0;
          }
          return olen;
        } else {
          return 0;
        }
      }
      TookStep(input, oldI, before, olen, output[..], dout);
      if dout > olen {
        return 0;
      }
      assert output[..][..dout] == output[..dout];
    }
  }

  lemma TookStep(m: Memory, p: nat, before: seq<byte>, olen: nat, output: seq<byte>, dout: nat)
    requires |before| <= olen && TokenAt(m, p).Got? && Took(before, TokenAt(m, p).token, olen, output, dout)
    ensures if dout > olen then Unpack(m, p, before, olen) == Failed
      else
        && |before| < dout <= |output|
        && Unpack(m, p, before, olen) == Unpack(m, p + TokenAt(m, p).size, output[..dout], olen)
  {
    hide Repeated;
  }
}
