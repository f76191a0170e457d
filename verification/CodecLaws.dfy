/** The laws of the seven messages: round trip, concatenation is merge, merge is a monoid, sizes. */
module CodecLaws {
  import opened Wire
  import opened Wrappers
  import opened UnknownFields
  import opened Messages
  import opened Codec

  lemma DefaultOk(t: MessageType)
    ensures MsgOk(t, Default(t))
  {
  }

  lemma {:induction false} MergeIntoDefault(t: MessageType, a: Msg)
    requires MsgOk(t, a)
    ensures MsgOk(t, Default(t)) && Merge(t, Default(t), a) == a
    decreases a
  {
    hide Schema;
    var d := Default(t);
    forall i | 0 <= i < |a.fields|
      ensures MergeVal(Schema(t)[i], d.fields[i], a.fields[i]) == a.fields[i]
    {
      if a.fields[i].Sub? {
        MergeIntoDefault(Schema(t)[i].kind.of, a.fields[i].m);
      }
    }
    assert Merge(t, d, a).fields == a.fields;
  }

  lemma MergeDefault(t: MessageType, a: Msg)
    requires MsgOk(t, a)
    ensures MsgOk(t, Default(t)) && Merge(t, a, Default(t)) == a
  {
    assert Merge(t, a, Default(t)).fields == a.fields;
  }

  lemma {:induction false} MergeAssociative(t: MessageType, a: Msg, b: Msg, c: Msg)
    requires MsgOk(t, a) && MsgOk(t, b) && MsgOk(t, c)
    ensures Merge(t, Merge(t, a, b), c) == Merge(t, a, Merge(t, b, c))
    decreases c
  {
    hide Schema, MsgOk, ValOk;
    FieldCount(t, a);
    FieldCount(t, b);
    FieldCount(t, c);
    var l, r := Merge(t, Merge(t, a, b), c), Merge(t, a, Merge(t, b, c));
    forall i | 0 <= i < |c.fields|
      ensures l.fields[i] == r.fields[i]
    {
      MergeValAssociative(Schema(t)[i], a.fields[i], b.fields[i], c.fields[i]);
    }
    assert l.fields == r.fields;
  }

  lemma {:induction false} MergeValAssociative(f: Field, a: Val, b: Val, c: Val)
    requires ValOk(f, a) && ValOk(f, b) && ValOk(f, c)
    ensures MergeVal(f, MergeVal(f, a, b), c) == MergeVal(f, a, MergeVal(f, b, c))
    decreases c
  {
    hide Merge;
    if c.Sub? {
      var t, x, y := f.kind.of, SubOrDefault(f, a), SubOrDefault(f, b);
      MergeAssociative(t, x, y, c.m);
      if b == Unset {
        MergeDefault(t, x);
      }
    }
  }

  // How a record is read depends on its own bytes only

  /** x and z begin with the same k bytes. */
  predicate Same(x: seq<byte>, z: seq<byte>, k: nat) {
    k <= |x| && k <= |z| && x[..k] == z[..k]
  }

  lemma SameBehind(x: seq<byte>, z: seq<byte>, j: nat, k: nat)
    requires j <= k && Same(x, z, k)
    ensures Same(x[j..], z[j..], k - j) && x[j..k] == z[j..k] && Same(x, z, j)
  {
    assert x[j..k] == x[..k][j..k] && z[j..k] == z[..k][j..k];
    assert x[j..][..k - j] == x[j..k] && z[j..][..k - j] == z[j..k];
    assert x[..j] == x[..k][..j] && z[..j] == z[..k][..j];
  }

  lemma {:induction false} VarintLocal(x: seq<byte>, z: seq<byte>, limit: nat)
    requires DecodeVarint(x, limit).Some? && Same(x, z, DecodeVarint(x, limit).value.1)
    ensures DecodeVarint(z, limit) == DecodeVarint(x, limit)
  {
    var k := DecodeVarint(x, limit).value.1;
    assert x[0] == x[..k][0] && z[0] == z[..k][0];
    if 128 <= x[0] {
      SameBehind(x, z, 1, k);
      VarintLocal(x[1..], z[1..], limit - 1);
    }
  }

  lemma TagLocal(x: seq<byte>, z: seq<byte>)
    requires ReadTag(x).Some? && Same(x, z, ReadTag(x).value.1)
    ensures ReadTag(z) == ReadTag(x)
  {
    hide DecodeVarint;
    VarintLocal(x, z, 5);
  }

  lemma SizeLocal(x: seq<byte>, z: seq<byte>)
    requires ReadSize(x).Some? && Same(x, z, ReadSize(x).value.1)
    ensures ReadSize(z) == ReadSize(x)
  {
    hide DecodeVarint;
    VarintLocal(x, z, 5);
  }

  lemma {:induction false} BodyLocal(tag: nat, x: seq<byte>, z: seq<byte>, depth: nat)
    requires ParseBody(tag, x, depth).Some? && Same(x, z, ParseBody(tag, x, depth).value.1)
    ensures ParseBody(tag, z, depth) == ParseBody(tag, x, depth)
    decreases |x|, 1
  {
    hide DecodeVarint, DecodeFixed, ParseGroup, ReadSize;
    var k := ParseBody(tag, x, depth).value.1;
    if tag % 8 == START_GROUP {
      GroupLocal(tag / 8, x, z, depth - 1);
    } else if tag % 8 == VARINT {
      VarintLocal(x, z, 10);
    } else if tag % 8 == LENGTH_DELIMITED {
      var p := ReadSize(x).value;
      SameBehind(x, z, p.1, k);
      SizeLocal(x, z);
    }
  }

  lemma {:induction false} GroupLocal(number: nat, x: seq<byte>, z: seq<byte>, depth: nat)
    requires ParseGroup(number, x, depth).Some? && Same(x, z, ParseGroup(number, x, depth).value.1)
    ensures ParseGroup(number, z, depth) == ParseGroup(number, x, depth)
    decreases |x|, 0
  {
    hide ReadTag, ParseBody, MakeTag, ParseGroup, Same;
    GroupGoesOn(number, x, depth);
    var k, t := ParseGroup(number, x, depth).value.1, ReadTag(x).value;
    SameBehind(x, z, t.1, k);
    TagLocal(x, z);
    if t.0 == 0 || t.0 % 8 == END_GROUP {
      GroupEnds(number, x, z, depth);
    } else {
      GroupStep(number, x, t.0, t.1, depth);
      var u := ParseBody(t.0, x[t.1..], depth).value;
      SameBehind(x[t.1..], z[t.1..], u.1, k - t.1);
      BodyLocal(t.0, x[t.1..], z[t.1..], depth);
      assert x[t.1..][u.1..] == x[t.1 + u.1..] && z[t.1..][u.1..] == z[t.1 + u.1..] by {
        assert Same(x, z, k);
        LongEnough(x, z, k);
      }
      GroupLocal(number, x[t.1 + u.1..], z[t.1 + u.1..], depth);
      GroupStep(number, z, t.0, t.1, depth);
    }
  }

  lemma LongEnough(x: seq<byte>, z: seq<byte>, k: nat)
    requires Same(x, z, k)
    ensures k <= |x| && k <= |z|
  {
  }

  lemma GroupEnds(number: nat, x: seq<byte>, z: seq<byte>, depth: nat)
    requires ReadTag(x).Some? && ReadTag(z) == ReadTag(x)
    requires ReadTag(x).value.0 == 0 || ReadTag(x).value.0 % 8 == END_GROUP
    ensures ParseGroup(number, z, depth) == ParseGroup(number, x, depth)
  {
    hide ReadTag, ParseBody, MakeTag;
  }

  /** A group that is read to its end and does not end here starts with a field. */
  lemma GroupGoesOn(number: nat, x: seq<byte>, depth: nat)
    requires ParseGroup(number, x, depth).Some?
    ensures ReadTag(x).Some?
    ensures var t := ReadTag(x).value;
            t.0 != 0 && t.0 % 8 != END_GROUP ==>
              && ParseBody(t.0, x[t.1..], depth).Some?
              && ParseGroup(number, x[t.1 + ParseBody(t.0, x[t.1..], depth).value.1..], depth).Some?
    ensures ReadTag(x).value.1 <= ParseGroup(number, x, depth).value.1
  {
    hide ReadTag, ParseBody, MakeTag;
  }

  lemma SubLocal(t: MessageType, x: seq<byte>, z: seq<byte>, m: Msg, depth: nat)
    requires MsgOk(t, m) && ParseSub(t, x, m, depth).Some? && Same(x, z, ParseSub(t, x, m, depth).value.1)
    ensures ParseSub(t, z, m, depth) == ParseSub(t, x, m, depth)
  {
    hide ReadSize, ParseInto, MsgOk;
    var p := ReadSize(x).value;
    SameBehind(x, z, p.1, p.1 + p.0);
    SizeLocal(x, z);
  }

  lemma ScalarLocal(k: Kind, x: seq<byte>, z: seq<byte>)
    requires !k.KMessage? && ParseScalar(k, x).Some? && Same(x, z, ParseScalar(k, x).value.1)
    ensures ParseScalar(k, z) == ParseScalar(k, x)
  {
    hide DecodeVarint, DecodeFixed;
    if !k.KFloat? {
      VarintLocal(x, z, 10);
    }
  }

  lemma KnownLocal(t: MessageType, i: nat, x: seq<byte>, z: seq<byte>, m: Msg, depth: nat)
    requires MsgOk(t, m) && i < |Schema(t)| && ParseKnown(t, i, x, m, depth).Some?
    requires Same(x, z, ParseKnown(t, i, x, m, depth).value.1)
    ensures ParseKnown(t, i, z, m, depth) == ParseKnown(t, i, x, m, depth)
  {
    hide ParseScalar, ParseSub, Schema, MsgOk, WithField;
    FieldCount(t, m);
    var f := Schema(t)[i];
    if f.kind.KMessage? {
      SubLocal(f.kind.of, x, z, SubOrDefault(f, m.fields[i]), depth);
    } else {
      ScalarLocal(f.kind, x, z);
    }
  }

  lemma FieldLocal(t: MessageType, x: seq<byte>, z: seq<byte>, m: Msg, depth: nat)
    requires MsgOk(t, m) && ParseField(t, x, m, depth).Some? && Same(x, z, ParseField(t, x, m, depth).value.1)
    ensures ParseField(t, z, m, depth) == ParseField(t, x, m, depth)
  {
    hide ReadTag, ParseKnown, ParseBody, Schema, MsgOk, MakeTag, WithUnknown, FieldIndex;
    var k, p := ParseField(t, x, m, depth).value.1, ReadTag(x).value;
    SameBehind(x, z, p.1, k);
    TagLocal(x, z);
    if Known(t, p.0 / 8, p.0 % 8) {
      KnownLocal(t, FieldIndex(Schema(t), p.0 / 8), x[p.1..], z[p.1..], m, depth);
    } else {
      BodyLocal(p.0, x[p.1..], z[p.1..], depth);
    }
  }

  /** Parsing runs over any concatenation piece by piece, whoever wrote the pieces. */
  lemma {:induction false} ParseConcatenation(t: MessageType, x: seq<byte>, y: seq<byte>, m: Msg, depth: nat)
    requires MsgOk(t, m) && ParseInto(t, x, m, depth).Some?
    ensures ParseInto(t, x + y, m, depth) == ParseInto(t, y, ParseInto(t, x, m, depth).value, depth)
    decreases |x|
  {
    hide ParseField;
    if x == [] {
      assert x + y == y;
    } else {
      assert ParseField(t, x, m, depth).Some? by {
        assert ParseInto(t, x, m, depth) != None;
      }
      var r := ParseField(t, x, m, depth).value;
      assert (x + y)[..r.1] == x[..r.1] && (x + y)[r.1..] == x[r.1..] + y;
      FieldLocal(t, x, x + y, m, depth);
      ParseConcatenation(t, x[r.1..], y, r.0, depth);
    }
  }

  lemma RoundTrip(t: MessageType, a: Msg, depth: nat)
    requires MsgOk(t, a) && |Encode(t, a)| <= MAX_READ && MsgDepth(a) <= depth
    ensures MsgOk(t, Default(t)) && ParseInto(t, Encode(t, a), Default(t), depth) == Some(a)
  {
    hide MsgOk, ParseInto, Encode, Merge, MsgDepth;
    MergeIntoDefault(t, a);
    EncodeBack(t, a, Default(t), [], depth);
    assert Encode(t, a) + [] == Encode(t, a);
    NothingLeft(t, a, depth);
  }

  lemma ConcatenationIsMerge(t: MessageType, a: Msg, b: Msg, depth: nat)
    requires MsgOk(t, a) && |Encode(t, a)| <= MAX_READ && MsgDepth(a) <= depth
    requires MsgOk(t, b) && |Encode(t, b)| <= MAX_READ && MsgDepth(b) <= depth
    ensures MsgOk(t, Default(t))
    ensures ParseInto(t, Encode(t, a) + Encode(t, b), Default(t), depth) == Some(Merge(t, a, b))
  {
    hide MsgOk, ParseInto, Encode, Merge, MsgDepth;
    MergeIntoDefault(t, a);
    EncodeBack(t, a, Default(t), Encode(t, b), depth);
    EncodeBack(t, b, a, [], depth);
    assert Encode(t, b) + [] == Encode(t, b);
    NothingLeft(t, Merge(t, a, b), depth);
  }
}
