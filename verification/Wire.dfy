/** The Protocol Buffers wire format, as far as the generated messages read and write it
    (parse_context.h, coded_stream.h, wire_format_lite.h). */
module Wire {
  import opened Powers
  import opened Wrappers

  type byte = x: int | 0 <= x < 256

  const INT_MAX: nat := 0x7fff_ffff
  const SLOP_BYTES := 16
  const MAX_READ: nat := INT_MAX - SLOP_BYTES          // the longest payload a reader accepts
  const MAX_FIELD: nat := 0x1fff_ffff

  // Base 128 varints

  function EncodeVarint(v: nat): (r: seq<byte>)
    ensures 1 <= |r|
  {
    if v < 128 then [v] else [v % 128 + 128] + EncodeVarint(v / 128)
  }

  /** A varint of at most `limit` bytes at the start of bs: its value and its length. */
  function DecodeVarint(bs: seq<byte>, limit: nat): (r: Option<(nat, nat)>)
    ensures r.Some? ==> 0 < r.value.1 <= |bs|
  {
    if bs == [] || limit == 0 then None
    else if bs[0] < 128 then Some((bs[0], 1))
    else match DecodeVarint(bs[1..], limit - 1)
      case None => None
      case Some(p) => Some((bs[0] - 128 + 128 * p.0, p.1 + 1))
  }

  /** 128 to the n: the values below it take at most n bytes. */
  function Pow128(n: nat): (p: nat)
    ensures 0 < p
  {
    if n == 0 then 1 else 128 * Pow128(n - 1)
  }

  lemma {:induction false} VarintRoundTrip(v: nat, limit: nat, rest: seq<byte>)
    requires v < Pow128(limit) && 0 < limit
    ensures |EncodeVarint(v)| <= limit
    ensures DecodeVarint(EncodeVarint(v) + rest, limit) == Some((v, |EncodeVarint(v)|))
  {
    var bs := EncodeVarint(v) + rest;
    if 128 <= v {
      VarintRoundTrip(v / 128, limit - 1, rest);
      assert bs[1..] == EncodeVarint(v / 128) + rest;
    }
  }

  lemma Limits()
    ensures TWO32 <= Pow128(5) && TWO64 <= Pow128(10)
  {
    assert Pow128(5) == 0x8_0000_0000;
    assert Pow128(10) == Pow128(5) * Pow128(5);
  }

  /** Seven bits a byte, the lowest first; all bytes but the last are marked. */
  lemma {:induction false} VarintBytes(v: nat, i: nat)
    requires i < |EncodeVarint(v)|
    ensures EncodeVarint(v)[i] % 128 == v / Pow128(i) % 128
    ensures 128 <= EncodeVarint(v)[i] <==> i + 1 < |EncodeVarint(v)|
  {
    if 0 < i {
      VarintBytes(v / 128, i - 1);
      DivideTwice(v, 128, Pow128(i - 1));
    }
  }

  lemma DivideTwice(v: nat, a: nat, b: nat)
    requires 0 < a && 0 < b
    ensures 0 < a * b && v / a / b == v / (a * b)
  {
    var d := v / a;
    var q, s := d / b, d % b;
    DivMod(v, a);
    DivMod(d, b);
    Expanded(a, b, q, s);
    MulOrder(a, s + 1, b);
    Expanded(a, 1, s, 1);
    MulOrder(a, 1, b);
    Quotient(v, a * b, q, a * s + v % a);
  }

  lemma DivMod(v: nat, d: nat)
    requires 0 < d
    ensures v == d * (v / d) + v % d && v % d < d
  {
  }

  lemma Expanded(a: nat, b: nat, q: nat, s: nat)
    ensures a * (b * q + s) == a * b * q + a * s
  {
  }

  lemma MulOrder(a: nat, x: nat, y: nat)
    requires x <= y
    ensures a * x <= a * y
  {
  }

  lemma Quotient(v: nat, d: nat, q: nat, r: nat)
    requires 0 < d && v == d * q + r && r < d
    ensures v / d == q
  {
    var k := v / d;
    DivMod(v, d);
    if k < q {
      MulOrder(d, k + 1, q);
    } else if q < k {
      MulOrder(d, q + 1, k);
    }
  }

  /** ReadTag: at most five bytes, kept in 32 bits. */
  function ReadTag(bs: seq<byte>): (r: Option<(nat, nat)>)
    ensures r.Some? ==> 0 < r.value.1 <= |bs| && r.value.0 < TWO32
  {
    match DecodeVarint(bs, 5)
    case None => None
    case Some(p) => Some((p.0 % 0x1_0000_0000, p.1))
  }

  /** ReadVarint64: at most ten bytes, kept in 64 bits. */
  function ReadVarint64(bs: seq<byte>): (r: Option<(nat, nat)>)
    ensures r.Some? ==> 0 < r.value.1 <= |bs| && r.value.0 < TWO64
  {
    match DecodeVarint(bs, 10)
    case None => None
    case Some(p) => Some((p.0 % 0x1_0000_0000_0000_0000, p.1))
  }

  /** ReadVarint32: the same bytes, kept in 32 bits. */
  function ReadVarint32(bs: seq<byte>): (r: Option<(nat, nat)>)
    ensures r.Some? ==> 0 < r.value.1 <= |bs| && r.value.0 < TWO32
  {
    match DecodeVarint(bs, 10)
    case None => None
    case Some(p) => Some((p.0 % 0x1_0000_0000, p.1))
  }

  /** ReadSize: a length that still fits an int when it is counted from the start of the slop region. */
  function ReadSize(bs: seq<byte>): (r: Option<(nat, nat)>)
    ensures r.Some? ==> 0 < r.value.1 <= |bs| && r.value.0 <= MAX_READ
  {
    match DecodeVarint(bs, 5)
    case None => None
    case Some(p) => if p.0 <= MAX_READ then Some(p) else None
  }

  /** The first k bytes are a varint: the last is the first that is not marked. */
  predicate IsVarint(bs: seq<byte>, k: nat) {
    0 < k <= |bs| && bs[k - 1] < 128 && forall i :: 0 <= i < k - 1 ==> 128 <= bs[i]
  }

  function Septets(bs: seq<byte>): nat {
    if bs == [] then 0 else bs[0] % 128 + 128 * Septets(bs[1..])
  }

  lemma {:induction false} VarintExactly(bs: seq<byte>, k: nat, limit: nat)
    requires IsVarint(bs, k)
    ensures DecodeVarint(bs, limit) == if k <= limit then Some((Septets(bs[..k]), k)) else None
  {
    assert bs[..k][1..] == bs[1..k];
    if 1 < k && limit != 0 {
      VarintExactly(bs[1..], k - 1, limit - 1);
      assert bs[1..][..k - 1] == bs[1..k];
    }
  }

  lemma {:induction false} NoVarint(bs: seq<byte>, limit: nat)
    requires forall i :: 0 <= i < |bs| ==> 128 <= bs[i]
    ensures DecodeVarint(bs, limit) == None
  {
    if bs != [] && limit != 0 {
      NoVarint(bs[1..], limit - 1);
    }
  }

  /** What each reader makes of any varint, however long it was written. */
  lemma ReadersExactly(bs: seq<byte>, k: nat)
    requires IsVarint(bs, k)
    ensures var v := Septets(bs[..k]);
            && ReadTag(bs) == (if k <= 5 then Some((v % 0x1_0000_0000, k)) else None)
            && ReadVarint64(bs) == (if k <= 10 then Some((v % 0x1_0000_0000_0000_0000, k)) else None)
            && ReadVarint32(bs) == (if k <= 10 then Some((v % 0x1_0000_0000, k)) else None)
            && ReadSize(bs) == (if k <= 5 && v <= 2147483647 - 16 then Some((v, k)) else None)
  {
    hide DecodeVarint, Septets;
    VarintExactly(bs, k, 5);
    VarintExactly(bs, k, 10);
  }

  lemma ReadBack(v: nat, rest: seq<byte>)
    ensures v < TWO32 ==> ReadTag(EncodeVarint(v) + rest) == Some((v, |EncodeVarint(v)|))
    ensures v < TWO64 ==> ReadVarint64(EncodeVarint(v) + rest) == Some((v, |EncodeVarint(v)|))
    ensures v < TWO32 ==> ReadVarint32(EncodeVarint(v) + rest) == Some((v, |EncodeVarint(v)|))
    ensures v <= MAX_READ ==> ReadSize(EncodeVarint(v) + rest) == Some((v, |EncodeVarint(v)|))
  {
    hide EncodeVarint, DecodeVarint, Pow128;
    Limits();
    if v < TWO32 {
      VarintRoundTrip(v, 5, rest);
      VarintRoundTrip(v, 10, rest);
    } else if v < TWO64 {
      VarintRoundTrip(v, 10, rest);
    }
  }

  // Fixed-width values, little end first

  function EncodeFixed(v: nat, width: nat): (r: seq<byte>)
    ensures |r| == width
  {
    if width == 0 then [] else [v % 256] + EncodeFixed(v / 256, width - 1)
  }

  /** Byte i holds bits 8i to 8i + 7. */
  lemma {:induction false} FixedBytes(v: nat, width: nat, i: nat)
    requires i < width
    ensures EncodeFixed(v, width)[i] == v / Pow256(i) % 256
  {
    if 0 < i {
      FixedBytes(v / 256, width - 1, i - 1);
      DivideTwice(v, 256, Pow256(i - 1));
    }
  }

  function DecodeFixed(bs: seq<byte>): nat {
    if bs == [] then 0 else bs[0] + 256 * DecodeFixed(bs[1..])
  }

  function Pow256(n: nat): (p: nat)
    ensures 0 < p
  {
    if n == 0 then 1 else 256 * Pow256(n - 1)
  }

  lemma {:induction false} FixedRoundTrip(v: nat, width: nat)
    requires v < Pow256(width)
    ensures DecodeFixed(EncodeFixed(v, width)) == v
  {
    if width != 0 {
      FixedRoundTrip(v / 256, width - 1);
      assert EncodeFixed(v, width)[1..] == EncodeFixed(v / 256, width - 1);
    }
  }

  lemma {:induction false} DecodedFixedFits(bs: seq<byte>)
    ensures DecodeFixed(bs) < Pow256(|bs|)
  {
    if bs != [] {
      DecodedFixedFits(bs[1..]);
    }
  }

  // Tags

  const VARINT := 0
  const FIXED64 := 1
  const LENGTH_DELIMITED := 2
  const START_GROUP := 3
  const END_GROUP := 4
  const FIXED32 := 5

  function MakeTag(number: nat, wireType: nat): nat {
    number * 8 + wireType
  }

  lemma TagParts(number: nat, wireType: nat)
    requires wireType < 8
    ensures MakeTag(number, wireType) / 8 == number && MakeTag(number, wireType) % 8 == wireType
  {
  }

  // Sizes

  /** CodedOutputStream::VarintSize32, with its multiplication in place of a division by seven. */
  function VarintSize32(v: nat): nat {
    (Log2Floor(if v == 0 then 1 else v) * 9 + 73) / 64
  }

  /** The same with room for a tag of one byte. */
  function VarintSize32PlusOne(v: nat): nat {
    (Log2Floor(if v == 0 then 1 else v) * 9 + 73 + 64) / 64
  }

  lemma LogHalf(v: nat)
    requires 2 <= v
    ensures Log2Floor(v) == 1 + Log2Floor(v / 2)
  {
  }

  lemma LogEighth(v: nat)
    requires 8 <= v
    ensures Log2Floor(v) == 3 + Log2Floor(v / 8)
  {
    hide Log2Floor;
    LogHalf(v);
    LogHalf(v / 2);
    LogHalf(v / 4);
  }

  lemma LogOfSeptet(v: nat)
    requires 128 <= v
    ensures Log2Floor(v) == 7 + Log2Floor(v / 128)
  {
    hide Log2Floor;
    LogEighth(v);
    LogEighth(v / 8);
    LogHalf(v / 64);
    assert v / 8 / 8 == v / 64 && v / 64 / 2 == v / 128;
  }

  lemma {:induction false} VarintLength(v: nat)
    requires 0 < v
    ensures |EncodeVarint(v)| == Log2Floor(v) / 7 + 1
  {
    if 128 <= v {
      LogOfSeptet(v);
      VarintLength(v / 128);
    } else {
      SmallLog(v);
    }
  }

  lemma SmallLog(v: nat)
    requires 0 < v < 128
    ensures Log2Floor(v) < 7
  {
    LogBelow(v, 7);
  }

  /** Multiplying by 9/64 divides by seven, up to 31. */
  lemma NineSixtyFourths(n: nat)
    requires n < 32
    ensures (n * 9 + 73) / 64 == n / 7 + 1
  {
  }

  /** The size is right for every 32-bit value. */
  lemma VarintSizeIsExact(v: nat)
    requires v < TWO32
    ensures VarintSize32(v) == |EncodeVarint(v)| && VarintSize32PlusOne(v) == 1 + |EncodeVarint(v)|
  {
    if 0 < v {
      VarintLength(v);
      WordSizes();
      LogBelow(v, 32);
      NineSixtyFourths(Log2Floor(v));
    }
  }
}
