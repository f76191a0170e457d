/** Fields the schema does not know, kept and written back (UnknownFieldSet, FieldParser in parse_context.h). */
module UnknownFields {
  import opened Powers
  import opened Wire
  import opened Wrappers

  datatype Unknown =
    | Varint(number: nat, value: nat)
    | Fixed64(number: nat, value: nat)
    | Bytes(number: nat, payload: seq<byte>)
    | Group(number: nat, fields: seq<Unknown>)
    | Fixed32(number: nat, value: nat)

  function WireTypeOf(u: Unknown): (w: nat)
    ensures w < 8 && w != END_GROUP
  {
    match u
    case Varint(_, _) => VARINT
    case Fixed64(_, _) => FIXED64
    case Bytes(_, _) => LENGTH_DELIMITED
    case Group(_, _) => START_GROUP
    case Fixed32(_, _) => FIXED32
  }

  /** What follows the tag on the wire. */
  function Body(u: Unknown): seq<byte>
    decreases u, 0
  {
    match u
    case Varint(_, v) => EncodeVarint(v)
    case Fixed64(_, v) => EncodeFixed(v, 8)
    case Bytes(_, p) => EncodeVarint(|p|) + p
    case Group(n, fs) => EncodeAll(fs) + EncodeVarint(MakeTag(n, END_GROUP))
    case Fixed32(_, v) => EncodeFixed(v, 4)
  }

  function EncodeAll(us: seq<Unknown>): seq<byte>
    decreases us, 0
  {
    if us == [] then []
    else EncodeVarint(MakeTag(us[0].number, WireTypeOf(us[0]))) + Body(us[0]) + EncodeAll(us[1..])
  }

  predicate InRange(u: Unknown)
    decreases u
  {
    && 0 < u.number <= MAX_FIELD
    && match u
       case Varint(_, v) => v < TWO64
       case Fixed64(_, v) => v < TWO64
       case Bytes(_, p) => |p| <= MAX_READ
       case Group(_, fs) => forall i :: 0 <= i < |fs| ==> InRange(fs[i])
       case Fixed32(_, v) => v < TWO32
  }

  /** How deep the groups nest. */
  function Depth(u: Unknown): nat
    decreases u, 0
  {
    match u
    case Group(_, fs) => 1 + DepthOfAll(fs)
    case _ => 0
  }

  function DepthOfAll(us: seq<Unknown>): nat
    decreases us, 0
  {
    if us == [] then 0 else Larger(Depth(us[0]), DepthOfAll(us[1..]))
  }

  function Larger(a: nat, b: nat): nat {
    if a < b then b else a
  }

  /** FieldParser, after the tag: the field and how many bytes it took. */
  function ParseBody(tag: nat, bs: seq<byte>, depth: nat): (r: Option<(Unknown, nat)>)
    ensures r.Some? ==> r.value.1 <= |bs|
    decreases |bs|, 1
  {
    var number, wireType := tag / 8, tag % 8;
    if number == 0 then None
    else if wireType == VARINT then
      match ReadVarint64(bs)
      case None => None
      case Some(p) => Some((Varint(number, p.0), p.1))
    else if wireType == FIXED64 then
      if |bs| < 8 then None else Some((Fixed64(number, DecodeFixed(bs[..8])), 8))
    else if wireType == LENGTH_DELIMITED then
      match ReadSize(bs)
      case None => None
      case Some(p) => if |bs| < p.1 + p.0 then None else Some((Bytes(number, bs[p.1..p.1 + p.0]), p.1 + p.0))
    else if wireType == START_GROUP then
      if depth == 0 then None
      else
        match ParseGroup(number, bs, depth - 1)
        case None => None
        case Some(p) => Some((Group(number, p.0), p.1))
    else if wireType == FIXED32 then
      if |bs| < 4 then None else Some((Fixed32(number, DecodeFixed(bs[..4])), 4))
    else None
  }

  /** The fields up to the end tag of group `number`, and how many bytes they and the end tag took. */
  function ParseGroup(number: nat, bs: seq<byte>, depth: nat): (r: Option<(seq<Unknown>, nat)>)
    ensures r.Some? ==> r.value.1 <= |bs|
    decreases |bs|, 0
  {
    match ReadTag(bs)
    case None => None
    case Some(t) =>
      if t.0 == 0 || t.0 % 8 == END_GROUP then
        if t.0 == MakeTag(number, END_GROUP) then Some(([], t.1)) else None
      else
        match ParseBody(t.0, bs[t.1..], depth)
        case None => None
        case Some(u) =>
          match ParseGroup(number, bs[t.1 + u.1..], depth)
          case None => None
          case Some(g) => Some(([u.0] + g.0, t.1 + u.1 + g.1))
  }

  lemma TagBack(number: nat, wireType: nat, rest: seq<byte>)
    requires 0 < number <= MAX_FIELD && wireType < 8
    ensures var tag := MakeTag(number, wireType);
            && ReadTag(EncodeVarint(tag) + rest) == Some((tag, |EncodeVarint(tag)|))
            && tag / 8 == number && tag % 8 == wireType
  {
    ReadBack(MakeTag(number, wireType), rest);
  }

  lemma {:induction false} BodyBack(u: Unknown, rest: seq<byte>, depth: nat)
    requires InRange(u) && Depth(u) <= depth
    ensures ParseBody(MakeTag(u.number, WireTypeOf(u)), Body(u) + rest, depth) == Some((u, |Body(u)|))
    decreases u, 0
  {
    hide MakeTag, EncodeVarint, ReadVarint64, ReadSize, EncodeFixed, DecodeFixed, ParseGroup, EncodeAll;
    TagParts(u.number, WireTypeOf(u));
    match u
    case Varint(_, v) => ReadBack(v, rest);
    case Fixed64(_, v) => FixedBack(v, 8, rest);
    case Bytes(_, p) =>
      BytesBack(p, rest);
    case Group(n, fs) =>
      GroupBack(n, fs, rest, depth - 1);
      assert Body(u) + rest == EncodeAll(fs) + (EncodeVarint(MakeTag(n, END_GROUP)) + rest);
    case Fixed32(_, v) => FixedBack(v, 4, rest);
  }

  lemma FixedBack(v: nat, width: nat, rest: seq<byte>)
    requires (width == 4 && v < TWO32) || (width == 8 && v < TWO64)
    ensures DecodeFixed((EncodeFixed(v, width) + rest)[..width]) == v
  {
    hide EncodeFixed, DecodeFixed;
    Widths();
    FixedRoundTrip(v, width);
    assert (EncodeFixed(v, width) + rest)[..width] == EncodeFixed(v, width);
  }

  lemma BytesBack(p: seq<byte>, rest: seq<byte>)
    requires |p| <= MAX_READ
    ensures var size, bs := EncodeVarint(|p|), EncodeVarint(|p|) + p + rest;
            ReadSize(bs) == Some((|p|, |size|)) && bs[|size|..|size| + |p|] == p
  {
    hide EncodeVarint, ReadSize;
    ReadBack(|p|, p + rest);
    assert EncodeVarint(|p|) + p + rest == EncodeVarint(|p|) + (p + rest);
  }

  lemma Widths()
    ensures Pow256(4) == TWO32 && Pow256(8) == TWO64
  {
    assert Pow256(8) == Pow256(4) * Pow256(4);
  }

  lemma {:induction false} GroupBack(n: nat, fs: seq<Unknown>, rest: seq<byte>, depth: nat)
    requires 0 < n <= MAX_FIELD && DepthOfAll(fs) <= depth && forall i :: 0 <= i < |fs| ==> InRange(fs[i])
    ensures var end := EncodeVarint(MakeTag(n, END_GROUP));
            ParseGroup(n, EncodeAll(fs) + (end + rest), depth) == Some((fs, |EncodeAll(fs)| + |end|))
    decreases fs, 0
  {
    hide MakeTag, EncodeVarint, ReadTag, ParseBody, ParseGroup, Body, WireTypeOf, InRange;
    var end := EncodeVarint(MakeTag(n, END_GROUP));
    if fs == [] {
      assert EncodeAll(fs) + (end + rest) == end + rest;
      GroupEnd(n, rest, depth);
    } else {
      hide EncodeAll, DepthOfAll, Depth;
      var u, tail := fs[0], EncodeAll(fs[1..]) + (end + rest);
      var tag := MakeTag(u.number, WireTypeOf(u));
      var t := EncodeVarint(tag);
      FirstUnknown(fs, end + rest);
      BodyBack(u, tail, depth);
      GroupBack(n, fs[1..], rest, depth);
      Positive(u);
      TagBack(u.number, WireTypeOf(u), Body(u) + tail);
      var bs := EncodeAll(fs) + (end + rest);
      Peel(bs, t, Body(u), tail);
      GroupStep(n, bs, tag, |t|, depth);
      assert fs == [u] + fs[1..];
    }
  }

  lemma FirstUnknown(fs: seq<Unknown>, rest: seq<byte>)
    requires fs != []
    ensures var t := EncodeVarint(MakeTag(fs[0].number, WireTypeOf(fs[0])));
            && EncodeAll(fs) + rest == t + (Body(fs[0]) + (EncodeAll(fs[1..]) + rest))
            && |EncodeAll(fs)| == |t| + |Body(fs[0])| + |EncodeAll(fs[1..])|
    ensures Depth(fs[0]) <= DepthOfAll(fs) && DepthOfAll(fs[1..]) <= DepthOfAll(fs)
  {
    hide EncodeVarint, Body, Depth, MakeTag, WireTypeOf;
    Joined(EncodeVarint(MakeTag(fs[0].number, WireTypeOf(fs[0]))), Body(fs[0]), EncodeAll(fs[1..]), rest);
  }

  lemma Joined(a: seq<byte>, b: seq<byte>, c: seq<byte>, d: seq<byte>)
    ensures a + b + c + d == a + (b + (c + d))
  {
  }

  /** Cutting a record into tag, body and the rest. */
  lemma Peel(bs: seq<byte>, t: seq<byte>, body: seq<byte>, tail: seq<byte>)
    requires bs == t + body + tail || bs == t + (body + tail)
    ensures bs == t + (body + tail) && bs[|t|..] == body + tail && bs[|t| + |body|..] == tail
  {
  }

  lemma GroupEnd(n: nat, rest: seq<byte>, depth: nat)
    requires 0 < n <= MAX_FIELD
    ensures var end := EncodeVarint(MakeTag(n, END_GROUP));
            ParseGroup(n, end + rest, depth) == Some(([], |end|))
  {
    hide EncodeVarint, ReadTag, ParseBody;
    TagBack(n, END_GROUP, rest);
  }

  lemma Positive(u: Unknown)
    requires InRange(u)
    ensures 0 < u.number <= MAX_FIELD
  {
  }

  /** One more field in front of what a group parse reads. */
  lemma GroupStep(n: nat, bs: seq<byte>, tag: nat, k: nat, depth: nat)
    requires ReadTag(bs) == Some((tag, k)) && tag != 0 && tag % 8 != END_GROUP
    requires var b := ParseBody(tag, bs[k..], depth); b.Some? && ParseGroup(n, bs[k + b.value.1..], depth).Some?
    ensures var u := ParseBody(tag, bs[k..], depth).value;
            var g := ParseGroup(n, bs[k + u.1..], depth).value;
            ParseGroup(n, bs, depth) == Some(([u.0] + g.0, k + u.1 + g.1))
  {
    hide ParseBody, ReadTag, MakeTag;
  }

  /** What a group parse makes of a field in front. */
  lemma ParseGroupStep(number: nat, y: seq<byte>, tag: nat, k: nat, depth: nat)
    requires ReadTag(y) == Some((tag, k)) && tag != 0 && tag % 8 != END_GROUP
    ensures var u := ParseBody(tag, y[k..], depth);
            if u == None then ParseGroup(number, y, depth) == None
            else
              var g := ParseGroup(number, y[k + u.value.1..], depth);
              if g == None then ParseGroup(number, y, depth) == None
              else ParseGroup(number, y, depth) == Some(([u.value.0] + g.value.0, k + u.value.1 + g.value.1))
  {
    hide ReadTag, ParseBody, MakeTag;
  }

  /** A group parse reads one field after the other and goes on behind them. */
  lemma {:induction false} GroupReads(n: nat, fs: seq<Unknown>, y: seq<byte>, depth: nat)
    requires DepthOfAll(fs) <= depth && forall i :: 0 <= i < |fs| ==> InRange(fs[i])
    ensures var g := ParseGroup(n, y, depth);
            ParseGroup(n, EncodeAll(fs) + y, depth)
            == if g == None then None else Some((fs + g.value.0, |EncodeAll(fs)| + g.value.1))
    decreases fs
  {
    hide MakeTag, EncodeVarint, ReadTag, ParseBody, ParseGroup, Body, WireTypeOf, InRange;
    var g := ParseGroup(n, y, depth);
    if fs == [] {
      assert EncodeAll(fs) + y == y;
      assert g.Some? ==> fs + g.value.0 == g.value.0;
    } else {
      hide EncodeAll, DepthOfAll, Depth;
      var u, tail := fs[0], EncodeAll(fs[1..]) + y;
      var tag := MakeTag(u.number, WireTypeOf(u));
      var t := EncodeVarint(tag);
      FirstUnknown(fs, y);
      BodyBack(u, tail, depth);
      GroupReads(n, fs[1..], y, depth);
      Positive(u);
      TagBack(u.number, WireTypeOf(u), Body(u) + tail);
      var bs := EncodeAll(fs) + y;
      Peel(bs, t, Body(u), tail);
      ParseGroupStep(n, bs, tag, |t|, depth);
      assert g.Some? ==> [u] + (fs[1..] + g.value.0) == fs + g.value.0;
    }
  }

  /** A group ends with its own end tag: a zero or the end of another group spoils it. */
  lemma GroupEndsExactly(n: nat, fs: seq<Unknown>, end: nat, rest: seq<byte>, depth: nat)
    requires DepthOfAll(fs) <= depth && forall i :: 0 <= i < |fs| ==> InRange(fs[i])
    requires end < TWO32 && (end == 0 || end % 8 == 4)
    ensures ParseGroup(n, EncodeAll(fs) + (EncodeVarint(end) + rest), depth)
            == if end == 8 * n + 4 then Some((fs, |EncodeAll(fs)| + |EncodeVarint(end)|)) else None
  {
    hide EncodeVarint, ParseGroup, EncodeAll;
    GroupReads(n, fs, EncodeVarint(end) + rest, depth);
    GroupEndTag(n, end, rest, depth);
    assert fs + [] == fs;
  }

  lemma GroupEndTag(n: nat, end: nat, rest: seq<byte>, depth: nat)
    requires end < TWO32 && (end == 0 || end % 8 == 4)
    ensures ParseGroup(n, EncodeVarint(end) + rest, depth)
            == if end == 8 * n + 4 then Some(([], |EncodeVarint(end)|)) else None
  {
    hide EncodeVarint, ReadTag, ParseBody;
    ReadBack(end, rest);
  }

  /** The tags that unknown fields are written with, by their numbers. */
  lemma UnknownTags(u: Unknown)
    ensures match u
            case Varint(n, v) => EncodeAll([u]) == EncodeVarint(8 * n) + EncodeVarint(v)
            case Fixed64(n, v) => EncodeAll([u]) == EncodeVarint(8 * n + 1) + EncodeFixed(v, 8)
            case Bytes(n, p) => EncodeAll([u]) == EncodeVarint(8 * n + 2) + EncodeVarint(|p|) + p
            case Group(n, fs) => EncodeAll([u]) == EncodeVarint(8 * n + 3) + EncodeAll(fs) + EncodeVarint(8 * n + 4)
            case Fixed32(n, v) => EncodeAll([u]) == EncodeVarint(8 * n + 5) + EncodeFixed(v, 4)
  {
    hide EncodeVarint, EncodeFixed;
    assert [u][1..] == [];
  }

  lemma {:induction false} ParsedBodyInRange(tag: nat, bs: seq<byte>, depth: nat)
    requires tag < TWO32 && ParseBody(tag, bs, depth).Some?
    ensures var u := ParseBody(tag, bs, depth).value.0;
            && InRange(u) && u.number == tag / 8 && WireTypeOf(u) == tag % 8 && Depth(u) <= depth
    decreases |bs|, 1
  {
    hide ReadTag, ReadVarint64, ReadSize, DecodeFixed, ParseGroup;
    Widths();
    if tag % 8 == FIXED64 {
      DecodedFixedFits(bs[..8]);
    } else if tag % 8 == FIXED32 {
      DecodedFixedFits(bs[..4]);
    } else if tag % 8 == START_GROUP {
      ParsedGroupInRange(tag / 8, bs, depth - 1);
    }
  }

  lemma {:induction false} ParsedGroupInRange(number: nat, bs: seq<byte>, depth: nat)
    requires ParseGroup(number, bs, depth).Some?
    ensures var fs := ParseGroup(number, bs, depth).value.0;
            DepthOfAll(fs) <= depth && forall i :: 0 <= i < |fs| ==> InRange(fs[i])
    decreases |bs|, 0
  {
    hide ReadTag, ParseBody, InRange, MakeTag;
    var t := ReadTag(bs).value;
    if !(t.0 == 0 || t.0 % 8 == END_GROUP) {
      var u := ParseBody(t.0, bs[t.1..], depth).value;
      ParsedBodyInRange(t.0, bs[t.1..], depth);
      ParsedGroupInRange(number, bs[t.1 + u.1..], depth);
      var g := ParseGroup(number, bs[t.1 + u.1..], depth).value.0;
      assert ParseGroup(number, bs, depth).value.0 == [u.0] + g;
      assert ([u.0] + g)[1..] == g;
    }
  }
}
