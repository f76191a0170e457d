/** Members of a message in the order its class declares them, which is the order in which
    ByteSizeLong and MergeImpl visit them. */
module MemberOrders {
  import opened Messages
  import opened Codec

  function Counting(n: nat): seq<nat> {
    seq(n, i requires 0 <= i < n => i)
  }

  /** Only PFireEvent stores its members out of field order: the sub-messages first. */
  function MemberOrder(t: MessageType): (o: seq<nat>)
    ensures |o| == |Schema(t)| && forall k :: 0 <= k < |o| ==> o[k] < |Schema(t)|
  {
    if t == PFireEvent then [0, 2, 3, 1] else Counting(|Schema(t)|)
  }

  // Sizes

  function SizeOver(t: MessageType, m: Msg, o: seq<nat>): nat
    requires MsgOk(t, m) && forall k :: 0 <= k < |o| ==> o[k] < |Schema(t)|
  {
    if o == [] then 0
    else SizeOver(t, m, o[..|o| - 1]) + |EncodeVal(Schema(t)[o[|o| - 1]], m.fields[o[|o| - 1]])|
  }

  lemma {:induction false} SizeOverCounting(t: MessageType, m: Msg, i: nat)
    requires MsgOk(t, m) && i <= |Schema(t)|
    ensures SizeOver(t, m, Counting(i)) + |EncodeFrom(t, m, i)| == |EncodeFrom(t, m, 0)|
  {
    hide Schema, EncodeVal, ValOk;
    if i != 0 {
      assert Counting(i)[..i - 1] == Counting(i - 1);
      SizeOverCounting(t, m, i - 1);
      FieldCount(t, m);
    }
  }

  lemma NothingFrom(t: MessageType, m: Msg)
    requires MsgOk(t, m)
    ensures EncodeFrom(t, m, |Schema(t)|) == []
  {
  }

  lemma SizeOverFour(t: MessageType, m: Msg, a: nat, b: nat, c: nat, d: nat)
    requires MsgOk(t, m) && a < |Schema(t)| && b < |Schema(t)| && c < |Schema(t)| && d < |Schema(t)|
    ensures SizeOver(t, m, [a, b, c, d])
         == |EncodeVal(Schema(t)[a], m.fields[a])| + |EncodeVal(Schema(t)[b], m.fields[b])|
          + |EncodeVal(Schema(t)[c], m.fields[c])| + |EncodeVal(Schema(t)[d], m.fields[d])|
  {
    hide EncodeVal, ValOk, Schema;
    assert [a, b, c, d][..3] == [a, b, c] && [a, b, c][..2] == [a, b] && [a, b][..1] == [a] && [a][..0] == [];
    assert SizeOver(t, m, [a]) == |EncodeVal(Schema(t)[a], m.fields[a])|;
    assert SizeOver(t, m, [a, b]) == SizeOver(t, m, [a]) + |EncodeVal(Schema(t)[b], m.fields[b])|;
    assert SizeOver(t, m, [a, b, c]) == SizeOver(t, m, [a, b]) + |EncodeVal(Schema(t)[c], m.fields[c])|;
  }

  /** Adding up in member order gives the length of what is written in field order. */
  lemma SizeInMemberOrder(t: MessageType, m: Msg)
    requires MsgOk(t, m)
    ensures SizeOver(t, m, MemberOrder(t)) == |EncodeFrom(t, m, 0)|
  {
    hide EncodeVal, ValOk, EncodeFrom, SizeOver;
    SizeOverCounting(t, m, |Schema(t)|);
    NothingFrom(t, m);
    if t == PFireEvent {
      SizeOverFour(t, m, 0, 2, 3, 1);
      SizeOverFour(t, m, 0, 1, 2, 3);
      assert Counting(4) == [0, 1, 2, 3];
    }
  }

  lemma {:induction false} PartSizeFrom(t: MessageType, m: Msg, i: nat, j: nat)
    requires MsgOk(t, m) && i <= j < |Schema(t)|
    ensures |EncodeVal(Schema(t)[j], m.fields[j])| <= |EncodeFrom(t, m, i)|
    decreases j - i
  {
    hide Schema, EncodeVal, ValOk;
    FieldCount(t, m);
    if i < j {
      PartSizeFrom(t, m, i + 1, j);
    }
  }

  lemma PartSize(t: MessageType, m: Msg, i: nat)
    requires MsgOk(t, m) && i < |Schema(t)|
    ensures |EncodeVal(Schema(t)[i], m.fields[i])| <= |Encode(t, m)|
  {
    PartSizeFrom(t, m, 0, i);
  }

  // Merging

  lemma SetTwice(t: MessageType, m: Msg, i: nat, u: Val, v: Val)
    requires MsgOk(t, m) && i < |Schema(t)| && ValOk(Schema(t)[i], u) && ValOk(Schema(t)[i], v)
    ensures WithField(t, WithField(t, m, i, u), i, v) == WithField(t, m, i, v)
    ensures WithField(t, m, i, m.fields[i]) == m
  {
    assert WithField(t, m, i, m.fields[i]).fields == m.fields;
  }

  /** Field i merged, the others as they were. */
  function OneMerged(t: MessageType, m: Msg, a: Msg, i: nat): (r: Msg)
    requires MsgOk(t, m) && MsgOk(t, a) && i < |Schema(t)|
    ensures MsgOk(t, r)
  {
    WithField(t, m, i, MergeVal(Schema(t)[i], m.fields[i], a.fields[i]))
  }

  function MergeOver(t: MessageType, m: Msg, a: Msg, o: seq<nat>): (r: Msg)
    requires MsgOk(t, m) && MsgOk(t, a) && forall k :: 0 <= k < |o| ==> o[k] < |Schema(t)|
    ensures MsgOk(t, r)
    decreases |o|
  {
    if o == [] then m
    else
      OneMerged(t, MergeOver(t, m, a, o[..|o| - 1]), a, o[|o| - 1])
  }

  lemma {:induction false} MergeOverAt(t: MessageType, m: Msg, a: Msg, o: seq<nat>, i: nat)
    requires MsgOk(t, m) && MsgOk(t, a) && forall k :: 0 <= k < |o| ==> o[k] < |Schema(t)|
    requires i < |Schema(t)| && forall j, k :: 0 <= j < k < |o| ==> o[j] != o[k]
    ensures var r := MergeOver(t, m, a, o);
            && r.unknown == m.unknown
            && r.fields[i] == if i in o then MergeVal(Schema(t)[i], m.fields[i], a.fields[i]) else m.fields[i]
    decreases |o|
  {
    hide Schema, MergeVal, ValOk;
    if o != [] {
      MergeOverAt(t, m, a, o[..|o| - 1], i);
    }
  }

  lemma MemberOrderCovers(t: MessageType)
    ensures var o := MemberOrder(t);
            && (forall j, k :: 0 <= j < k < |o| ==> o[j] != o[k])
            && (forall i :: 0 <= i < |Schema(t)| ==> i in o)
  {
    var o := MemberOrder(t);
    forall i | 0 <= i < |Schema(t)|
      ensures i in o
    {
      assert o[if t != PFireEvent || i == 0 then i else if i == 1 then 3 else i - 1] == i;
    }
  }

  lemma SomeField(t: MessageType)
    ensures 0 < |Schema(t)|
  {
  }

  lemma MergeAt(t: MessageType, m: Msg, a: Msg, i: nat)
    requires MsgOk(t, m) && MsgOk(t, a)
    ensures Merge(t, m, a).unknown == m.unknown + a.unknown
    ensures i < |Schema(t)| ==> Merge(t, m, a).fields[i] == MergeVal(Schema(t)[i], m.fields[i], a.fields[i])
  {
  }

  /** Merging member by member, then the unknown fields, is the merge. */
  lemma MergeInMemberOrder(t: MessageType, m: Msg, a: Msg)
    requires MsgOk(t, m) && MsgOk(t, a)
    ensures var r := MergeOver(t, m, a, MemberOrder(t)); r.(unknown := r.unknown + a.unknown) == Merge(t, m, a)
  {
    hide Schema, MergeVal, ValOk, MsgOk, MergeOver, MemberOrder, Merge;
    var o := MemberOrder(t);
    var r, g := MergeOver(t, m, a, o), Merge(t, m, a);
    MemberOrderCovers(t);
    FieldCount(t, r);
    FieldCount(t, g);
    forall i | 0 <= i < |Schema(t)|
      ensures r.unknown == m.unknown && r.fields[i] == g.fields[i]
    {
      MergeOverAt(t, m, a, o, i);
      MergeAt(t, m, a, i);
    }
    MergeAt(t, m, a, |Schema(t)|);
    SomeField(t);
    MergeOverAt(t, m, a, o, 0);
    assert r.fields == g.fields;
  }
}
